/**
 * The students table and the derived queries declared on its repository
 * (`findByNumber`, `existsByNumber`, `findAllByOrderByNameAsc`), read by
 * what their names mean to Spring Data. The inherited `findAll` is
 * `Tables.FindAll`.
 */
module AlunosRepository {
  import opened Outcomes
  import opened AlunosEntity
  import Tables

  /** The students table: generated id to persisted row. */
  type Rows = map<int, AlunoRow>

  /** The id a student row is stored under. */
  function AlunoId(a: AlunoRow): int {
    a.id
  }

  /** The unique index on the `number` column. */
  ghost predicate UniqueNumbers(t: Rows) {
    forall j, k :: j in t && k in t && t[j].number == t[k].number ==> j == k
  }

  /** The `@NotBlank` constraint on `name`, for every stored row. */
  ghost predicate NamesNotBlank(t: Rows) {
    forall k :: k in t ==> NotBlankConstraint(t[k].name)
  }

  /**
   * Writing a row under its own id keeps the table's constraints when its
   * name is not blank and no other row holds its number.
   */
  lemma PutKeepsConstraints(t: Rows, row: AlunoRow)
    requires Tables.KeyedById(t, AlunoId) && UniqueNumbers(t) && NamesNotBlank(t)
    requires NotBlankConstraint(row.name)
    requires forall k :: k in t && k != row.id ==> t[k].number != row.number
    ensures Tables.KeyedById(t[row.id := row], AlunoId)
    ensures UniqueNumbers(t[row.id := row]) && NamesNotBlank(t[row.id := row])
  {
  }

  /** The rows a query `WHERE number = ?` selects, in the order of `findAll`. */
  function WithNumber(t: Rows, number: int): (r: seq<AlunoRow>)
    ensures forall a :: a in r <==> a in t.Values && a.number == number
  {
    Tables.Filter(Tables.FindAll(t, AlunoId), (a: AlunoRow) => a.number == number)
  }

  /** `existsByNumber`. */
  function ExistsByNumber(t: Rows, number: int): (b: bool)
    ensures b <==> exists k :: k in t && t[k].number == number
  {
    var matches := WithNumber(t, number);
    assert forall k :: k in t && t[k].number == number ==> t[k] in matches;
    assert matches != [] ==> matches[0] in matches;
    matches != []
  }

  /** `findByNumber`: the one student holding `number`, if any. */
  function FindByNumber(t: Rows, number: int): (r: Option<AlunoRow>)
    requires UniqueNumbers(t)
    ensures r.Some? <==> ExistsByNumber(t, number)
    ensures r.Some? ==> r.value in t.Values && r.value.number == number
    ensures r.Some? ==> forall k :: k in t && t[k].number == number ==> t[k] == r.value
  {
    var matches := WithNumber(t, number);
    assert forall k :: k in t && t[k].number == number ==> t[k] in matches;
    if matches == [] then None
    else
      assert matches[0] in matches;
      Some(matches[0])
  }

  /**
   * The order of `ORDER BY name ASC`: character by character, a proper
   * prefix first.
   */
  predicate NameLe(a: string, b: string) {
    |a| == 0 || (|b| > 0 && (a[0] < b[0] || (a[0] == b[0] && NameLe(a[1..], b[1..]))))
  }

  lemma {:induction false} NameLeTotal(a: string, b: string)
    ensures NameLe(a, b) || NameLe(b, a)
  {
    if |a| > 0 && |b| > 0 && a[0] == b[0] {
      NameLeTotal(a[1..], b[1..]);
    }
  }

  lemma {:induction false} NameLeTransitive(a: string, b: string, c: string)
    requires NameLe(a, b) && NameLe(b, c)
    ensures NameLe(a, c)
  {
    if |a| > 0 && a[0] == b[0] && b[0] == c[0] {
      NameLeTransitive(a[1..], b[1..], c[1..]);
    }
  }

  ghost predicate SortedByName(s: seq<AlunoRow>) {
    forall i, j :: 0 <= i < j < |s| ==> NameLe(s[i].name, s[j].name)
  }

  /** A row whose name comes no later than the first of a sorted sequence comes no later than all of it. */
  lemma {:induction false} FirstBoundsAll(x: AlunoRow, s: seq<AlunoRow>)
    requires SortedByName(s) && s != [] && NameLe(x.name, s[0].name)
    ensures forall j :: 0 <= j < |s| ==> NameLe(x.name, s[j].name)
  {
    forall j | 0 < j < |s| ensures NameLe(x.name, s[j].name) {
      NameLeTransitive(x.name, s[0].name, s[j].name);
    }
  }

  /** Puts `x` into the sorted `s` after every row whose name is smaller. */
  function InsertByName(x: AlunoRow, s: seq<AlunoRow>): (r: seq<AlunoRow>)
    requires SortedByName(s)
    ensures SortedByName(r)
    ensures multiset(r) == multiset(s) + multiset{x}
  {
    if s == [] then [x]
    else if NameLe(x.name, s[0].name) then
      FirstBoundsAll(x, s);
      [x] + s
    else
      assert s == [s[0]] + s[1..];
      var rest := InsertByName(x, s[1..]);
      NameLeTotal(x.name, s[0].name);
      HeadBoundsInsert(s[0], x, s[1..], rest);
      [s[0]] + rest
  }

  /**
   * When `head` comes no later than `x` and than every row of `s`, it comes
   * no later than every row of a rearrangement of `s` plus `x`.
   */
  lemma HeadBoundsInsert(head: AlunoRow, x: AlunoRow, s: seq<AlunoRow>, rest: seq<AlunoRow>)
    requires NameLe(head.name, x.name)
    requires forall a :: a in s ==> NameLe(head.name, a.name)
    requires multiset(rest) == multiset(s) + multiset{x}
    ensures forall a :: a in rest ==> NameLe(head.name, a.name)
  {
    forall a | a in rest ensures NameLe(head.name, a.name) {
      assert a in multiset(rest);
      if a != x {
        assert a in multiset(s);
      }
    }
  }

  /** Insertion sort by name. */
  function SortByName(s: seq<AlunoRow>): (r: seq<AlunoRow>)
    ensures SortedByName(r)
    ensures multiset(r) == multiset(s)
  {
    if s == [] then []
    else
      assert s == [s[0]] + s[1..];
      InsertByName(s[0], SortByName(s[1..]))
  }

  /** `findAllByOrderByNameAsc`: the rows of `findAll`, rearranged so that names never decrease. */
  function FindAllByOrderByNameAsc(t: Rows): (r: seq<AlunoRow>)
    ensures SortedByName(r)
    ensures multiset(r) == multiset(Tables.FindAll(t, AlunoId))
    ensures |r| == |t|
    ensures forall a :: a in r <==> a in t.Values
  {
    var r := SortByName(Tables.FindAll(t, AlunoId));
    assert forall a :: a in r <==> a in multiset(Tables.FindAll(t, AlunoId));
    assert |r| == |multiset(r)|;
    r
  }

  /**
   * The students table and its id sequence (`alunos_sequence`, starting at
   * 1 and advancing by one per insert).
   */
  class Store {
    var rows: Rows
    var nextId: int

    ghost predicate Valid()
      reads this
    {
      && nextId >= 1
      && Tables.KeyedById(rows, AlunoId)
      && UniqueNumbers(rows)
      && NamesNotBlank(rows)
      && forall k :: k in rows ==> 1 <= k < nextId
    }

    constructor ()
      ensures Valid()
      ensures rows == map[] && nextId == 1
    {
      rows := map[];
      nextId := 1;
    }
  }
}
