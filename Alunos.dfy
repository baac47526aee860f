/**
 * The student entity (`Alunos`): an object with a generated id, a name and
 * an enrollment number, the validation constraints on those fields, and the
 * id-based equality the entity defines. `AlunoRow` is what the students
 * table stores for a persisted student.
 */
module AlunosEntity {
  import opened Outcomes

  /**
   * Java's `Character.isWhitespace`: the Unicode space, line and paragraph
   * separators except the non-breaking ones (U+00A0, U+2007, U+202F), and
   * the control characters U+0009..U+000D and U+001C..U+001F.
   */
  predicate IsWhitespace(c: char)
    ensures c == ' ' || c == '\t' || c == '\n' ==> IsWhitespace(c)
    ensures c == '\U{A0}' || c == '\U{2007}' || c == '\U{202F}' ==> !IsWhitespace(c)
    ensures c as int < 0x09 ==> !IsWhitespace(c)
  {
    var n := c as int;
    || 0x09 <= n <= 0x0D
    || 0x1C <= n <= 0x20
    || n == 0x1680
    || 0x2000 <= n <= 0x2006
    || 0x2008 <= n <= 0x200A
    || n == 0x2028 || n == 0x2029
    || n == 0x205F || n == 0x3000
  }

  /**
   * `String.isBlank`, the test `updateAluno` applies to a supplied name:
   * empty, or only whitespace in the sense of `Character.isWhitespace`.
   */
  predicate IsBlank(s: string)
    ensures |s| == 0 ==> IsBlank(s)
    ensures (exists i :: 0 <= i < |s| && s[i] as int < 0x09) ==> !IsBlank(s)
  {
    forall i :: 0 <= i < |s| ==> IsWhitespace(s[i])
  }

  /** How many characters `String.trim` drops from the front of `s`: those at or below U+0020. */
  function LeadingTrimmed(s: string): (n: nat)
    ensures n <= |s|
    ensures forall k :: 0 <= k < n ==> s[k] <= ' '
    ensures n < |s| ==> s[n] > ' '
  {
    if s != [] && s[0] <= ' ' then 1 + LeadingTrimmed(s[1..]) else 0
  }

  /** How many characters `String.trim` drops from the back of `s`. */
  function TrailingTrimmed(s: string): (n: nat)
    ensures n <= |s|
    ensures forall k :: |s| - n <= k < |s| ==> s[k] <= ' '
    ensures n < |s| ==> s[|s| - 1 - n] > ' '
  {
    if s != [] && s[|s| - 1] <= ' ' then 1 + TrailingTrimmed(s[..|s| - 1]) else 0
  }

  /**
   * `String.trim`: `s` without its leading and trailing characters at or
   * below U+0020. Nothing is left exactly when every character is one.
   */
  function Trim(s: string): (r: string)
    ensures |r| <= |s|
    ensures r == [] || (r[0] > ' ' && r[|r| - 1] > ' ')
    ensures r == [] <==> forall k :: 0 <= k < |s| ==> s[k] <= ' '
  {
    var front := LeadingTrimmed(s);
    if front == |s| then []
    else
      var back := TrailingTrimmed(s);
      assert front < |s| - back by {
        assert s[front] > ' ';
      }
      s[front..|s| - back]
  }

  /**
   * The `@NotBlank` constraint on `name`, as bean validation checks it: the
   * trimmed string is not empty, that is, some character lies above U+0020.
   * This is a different test from `IsBlank`.
   */
  predicate NotBlankConstraint(s: string)
    ensures NotBlankConstraint(s) <==> exists k :: 0 <= k < |s| && s[k] > ' '
  {
    |Trim(s)| > 0
  }

  /**
   * The two blankness tests disagree both ways: an ideographic space is
   * `isBlank` yet passes `@NotBlank`, and a control character U+0001 is not
   * `isBlank` yet fails `@NotBlank`.
   */
  lemma BlankTestsDisagree()
    ensures IsBlank("\U{3000}") && NotBlankConstraint("\U{3000}")
    ensures !IsBlank("\U{1}") && !NotBlankConstraint("\U{1}")
  {
    var ideographic: string := "\U{3000}";
    assert ideographic[0] > ' ';
    var control: string := "\U{1}";
    assert control[0] as int < 0x09;
  }

  /** A persisted student: the row stored under `id` in the students table. */
  datatype AlunoRow = AlunoRow(id: int, name: string, number: int)

  /**
   * The value `getClass().hashCode()` yields: one number shared by every
   * instance. Its actual value is the identity hash of the class object.
   */
  const ClassHash: int := 0

  class Alunos {
    var id: Option<int>
    var name: string
    var number: int

    /** The bean-validation constraints: `@NotBlank` on the name (the number cannot be null here). */
    predicate Valid()
      reads this
    {
      NotBlankConstraint(name)
    }

    /** `new Alunos(name, number)`: the id stays unset until the store assigns one. */
    constructor (name: string, number: int)
      ensures this.id == None
      ensures this.name == name && this.number == number
    {
      this.id := None;
      this.name := name;
      this.number := number;
    }

    method SetName(name: string)
      modifies this
      ensures this.name == name
      ensures id == old(id) && number == old(number)
    {
      this.name := name;
    }

    method SetNumber(number: int)
      modifies this
      ensures this.number == number
      ensures id == old(id) && name == old(name)
    {
      this.number := number;
    }

    /**
     * `equals`: the same reference, or another `Alunos` whose id equals this
     * one's non-null id. Name and number play no part.
     */
    predicate Equals(o: object?)
      reads this, o
      ensures this == o ==> Equals(o)
      ensures !(o is Alunos) ==> !Equals(o)
    {
      if this == o then true
      else if o is Alunos then id.Some? && id == (o as Alunos).id
      else false
    }

    /** `hashCode`: the class's hash, whatever the fields hold. */
    function HashCode(): int {
      ClassHash
    }
  }

  /** Two distinct instances are equal exactly when they carry the same non-null id. */
  lemma EqualsDistinctById(a: Alunos, b: Alunos)
    requires a != b
    ensures a.Equals(b) <==> a.id.Some? && a.id == b.id
  {
  }

  /** An instance whose id is unset is equal only to itself. */
  lemma UnsavedEqualsOnlyItself(a: Alunos, o: object?)
    requires a.id == None
    ensures a.Equals(o) <==> a == o
  {
  }

  /** Among `Alunos` instances, `equals` is an equivalence relation. */
  lemma EqualsIsEquivalence(a: Alunos, b: Alunos, c: Alunos)
    ensures a.Equals(b) ==> b.Equals(a)
    ensures a.Equals(b) && b.Equals(c) ==> a.Equals(c)
  {
  }

  /** Equal instances have equal hash codes, as `Object.hashCode` demands. */
  lemma HashCodeAgreesWithEquals(a: Alunos, b: Alunos)
    requires a.Equals(b)
    ensures a.HashCode() == b.HashCode()
  {
  }
}
