/** The four fixed character-class literals the generator draws from
    (App.tsx:27-30), once as the source spells them and once corrected. */
module Charsets {

  /** The four character classes a user can switch on, in the order the
      alphabet is assembled. */
  datatype CharClass = Lower | Upper | Digit | Symbol

  /** One literal per character class. */
  datatype Literals = Literals(lower: string, upper: string, digits: string, special: string)
  {
    /** The literal belonging to class `c`. */
    function Chars(c: CharClass): string {
      match c
      case Lower => lower
      case Upper => upper
      case Digit => digits
      case Symbol => special
    }
  }

  /** The literals exactly as the source spells them: the lowercase one
      skips 'x' and repeats 'z'. */
  const AsWritten := Literals(
    "abcdefghijklmnopqrstuvwzyz",
    "ABCDEFGHIJKLMNOPQRSTUVWXYZ",
    "0123456789",
    "!@#$%^&*()_+")

  /** The literals with the lowercase alphabet spelled out in full. */
  const Intended := AsWritten.(lower := "abcdefghijklmnopqrstuvwxyz")

  /** No character occurs twice in `s`. */
  predicate Distinct(s: string) {
    forall i, j :: 0 <= i < j < |s| ==> s[i] != s[j]
  }

  /** `s` is the run of consecutive characters starting at `first`. */
  predicate Consecutive(s: string, first: char) {
    forall i :: 0 <= i < |s| ==> s[i] as int == first as int + i
  }

  /** A run of consecutive characters holds exactly the characters of
      its range, each once. */
  lemma {:induction false} ConsecutiveIsRange(s: string, first: char)
    requires Consecutive(s, first)
    ensures Distinct(s)
    ensures forall c :: c in s <==> first as int <= c as int < first as int + |s|
  {
    forall c | first as int <= c as int < first as int + |s|
      ensures c in s
    {
      assert s[c as int - first as int] == c;
    }
  }

  /** The corrected lowercase literal is the whole Latin alphabet with no
      repeats, and the other three literals have no repeats either. */
  lemma IntendedLiteralsExact()
    ensures |Intended.lower| == 26 && |Intended.upper| == 26
    ensures |Intended.digits| == 10 && |Intended.special| == 12
    ensures forall c :: c in Intended.lower <==> 'a' <= c <= 'z'
    ensures forall c :: c in Intended.upper <==> 'A' <= c <= 'Z'
    ensures forall c :: c in Intended.digits <==> '0' <= c <= '9'
    ensures Distinct(Intended.lower) && Distinct(Intended.upper)
    ensures Distinct(Intended.digits) && Distinct(Intended.special)
  {
    ConsecutiveIsRange(Intended.lower, 'a');
    ConsecutiveIsRange(Intended.upper, 'A');
    ConsecutiveIsRange(Intended.digits, '0');
  }

  /** The lowercase literal as written has the right length but lacks
      'x' and holds 'z' twice, at positions 23 and 25. */
  lemma AsWrittenLowerDefect()
    ensures |AsWritten.lower| == 26
    ensures 'x' !in AsWritten.lower
    ensures forall i :: 0 <= i < |AsWritten.lower| ==> (AsWritten.lower[i] == 'z' <==> i == 23 || i == 25)
    ensures !Distinct(AsWritten.lower)
    ensures forall c :: c in AsWritten.lower ==> 'a' <= c <= 'z'
  {
    AsWrittenLowerSplit();
    ConsecutiveIsRange(AlphabetToW, 'a');
    assert AsWritten.lower[23] == AsWritten.lower[25];
  }

  /** The letters 'a' through 'w', which the as-written literal gets right. */
  const AlphabetToW := "abcdefghijklmnopqrstuvw"

  /** The as-written literal is the alphabet up to 'w' followed by "zyz". */
  lemma AsWrittenLowerSplit()
    ensures AsWritten.lower == AlphabetToW + "zyz"
    ensures Consecutive(AlphabetToW, 'a')
  {
  }

  /** No literal of the as-written table contains 'x'. */
  lemma NoLiteralHasX(c: CharClass)
    ensures 'x' !in AsWritten.Chars(c)
  {
    match c
    case Lower => AsWrittenLowerDefect();
    case Upper => IntendedLiteralsExact();
    case Digit => IntendedLiteralsExact();
    case Symbol =>
  }
}
