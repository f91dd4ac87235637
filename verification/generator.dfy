/** The password generator of App.tsx: alphabet assembly
    (generatePasswordString, lines 24-43) and the character loop
    (createPassword, lines 50-57).

    The source draws each index as Math.round(Math.random() * |A|). This
    model does not draw: the caller supplies the sequence of drawn indices,
    one per loop iteration, and RoundedDraws names the range the source's
    draws fall in. */
module Generator {
  import opened Charsets

  /** The four checkbox states that select character classes. */
  datatype Flags = Flags(lowerCase: bool, upperCase: bool, number: bool, symbols: bool)
  {
    /** Whether class `c` is switched on. */
    function Enabled(c: CharClass): bool {
      match c
      case Lower => lowerCase
      case Upper => upperCase
      case Digit => number
      case Symbol => symbols
    }
  }

  /** Two flag records that agree on every class are the same record. */
  lemma FlagsExtensional(f: Flags, g: Flags)
    requires forall c :: f.Enabled(c) == g.Enabled(c)
    ensures f == g
  {
    assert f.Enabled(Lower) == g.Enabled(Lower) && f.Enabled(Upper) == g.Enabled(Upper);
    assert f.Enabled(Digit) == g.Enabled(Digit) && f.Enabled(Symbol) == g.Enabled(Symbol);
  }

  // ---------------------------------------------------------------------
  // Alphabet assembly
  // ---------------------------------------------------------------------

  /** The character list built by four successive appends, one per
      enabled flag, starting from the empty string. Its length is the sum
      of what the enabled classes contribute; with every flag off it is
      empty. */
  function Alphabet(lits: Literals, f: Flags): (a: string)
    ensures |a| == Contribution(lits, f, Lower) + Contribution(lits, f, Upper)
                 + Contribution(lits, f, Digit) + Contribution(lits, f, Symbol)
    ensures !f.lowerCase && !f.upperCase && !f.number && !f.symbols ==> a == ""
  {
    var withLower := if f.lowerCase then lits.lower else "";
    var withUpper := if f.upperCase then withLower + lits.upper else withLower;
    var withDigits := if f.number then withUpper + lits.digits else withUpper;
    if f.symbols then withDigits + lits.special else withDigits
  }

  /** The classes in the order their literals are appended. */
  const ClassOrder: seq<CharClass> := [Lower, Upper, Digit, Symbol]

  /** Reference definition: the literals of the enabled classes among
      `classes`, concatenated in the order `classes` lists them. */
  function Selected(lits: Literals, f: Flags, classes: seq<CharClass>): string {
    if |classes| == 0 then ""
    else (if f.Enabled(classes[0]) then lits.Chars(classes[0]) else "")
         + Selected(lits, f, classes[1..])
  }

  /** The assembled alphabet is the enabled literals in the fixed class
      order lowercase, uppercase, digits, symbols. */
  lemma AlphabetInClassOrder(lits: Literals, f: Flags)
    ensures Alphabet(lits, f) == Selected(lits, f, ClassOrder)
  {
    var symbolsOnly := if f.symbols then lits.special else "";
    assert Selected(lits, f, [Symbol]) == symbolsOnly + Selected(lits, f, []);
    assert Selected(lits, f, [Digit, Symbol])
        == (if f.number then lits.digits else "") + symbolsOnly by {
      assert [Digit, Symbol][1..] == [Symbol];
    }
    assert Selected(lits, f, [Upper, Digit, Symbol])
        == (if f.upperCase then lits.upper else "") + Selected(lits, f, [Digit, Symbol]) by {
      assert [Upper, Digit, Symbol][1..] == [Digit, Symbol];
    }
    assert ClassOrder[1..] == [Upper, Digit, Symbol];
  }

  /** A character is in the alphabet exactly when some enabled class's
      literal contains it. */
  lemma AlphabetMembership(lits: Literals, f: Flags, ch: char)
    ensures ch in Alphabet(lits, f) <==> exists c :: f.Enabled(c) && ch in lits.Chars(c)
  {
    if ch in Alphabet(lits, f) {
      if f.symbols && ch in lits.special {
        assert f.Enabled(Symbol) && ch in lits.Chars(Symbol);
      } else if f.number && ch in lits.digits {
        assert f.Enabled(Digit) && ch in lits.Chars(Digit);
      } else if f.upperCase && ch in lits.upper {
        assert f.Enabled(Upper) && ch in lits.Chars(Upper);
      } else {
        assert f.Enabled(Lower) && ch in lits.Chars(Lower);
      }
    }
  }

  /** The number of characters class `c` contributes: its literal's length
      when enabled, none otherwise. */
  function Contribution(lits: Literals, f: Flags, c: CharClass): nat {
    if f.Enabled(c) then |lits.Chars(c)| else 0
  }

  /** For the source's literals, and the corrected ones, the classes
      contribute 26, 26, 10 and 12 characters. */
  lemma AlphabetLength(lits: Literals, f: Flags)
    ensures lits == AsWritten || lits == Intended ==>
      |Alphabet(lits, f)| == (if f.lowerCase then 26 else 0) + (if f.upperCase then 26 else 0)
                           + (if f.number then 10 else 0) + (if f.symbols then 12 else 0)
  {
  }

  /** With the source's literals, the alphabet is empty exactly when all
      four flags are off. */
  lemma AlphabetEmptyIff(lits: Literals, f: Flags)
    requires lits == AsWritten || lits == Intended
    ensures Alphabet(lits, f) == "" <==> !f.lowerCase && !f.upperCase && !f.number && !f.symbols
  {
    AlphabetLength(lits, f);
  }

  // ---------------------------------------------------------------------
  // Password construction
  // ---------------------------------------------------------------------

  /** JavaScript's String.prototype.charAt on a non-negative index: the
      one-character string at `i`, or "" when `i` is past the end. */
  function CharAt(s: string, i: nat): (r: string)
    ensures |r| <= 1
    ensures i < |s| <==> |r| == 1
    ensures i < |s| ==> r[0] == s[i]
  {
    if i < |s| then [s[i]] else ""
  }

  /** The indices Math.round(Math.random() * n) can yield: 0 through n,
      both ends included, because rounding can reach n. */
  predicate RoundedDraws(n: nat, draws: seq<nat>) {
    forall k :: 0 <= k < |draws| ==> draws[k] <= n
  }

  /** Every drawn index falls inside the alphabet. */
  predicate InRange(n: nat, draws: seq<nat>) {
    forall k :: 0 <= k < |draws| ==> draws[k] < n
  }

  /** The password the loop builds from `characters` when its successive
      iterations draw `draws`: one charAt result appended per draw. Its
      characters all come from `characters`, and it is never longer than
      the number of draws. */
  function Password(characters: string, draws: seq<nat>): (r: string)
    ensures |r| <= |draws|
    ensures forall k :: 0 <= k < |r| ==> r[k] in characters
    decreases |draws|
  {
    if |draws| == 0 then ""
    else Password(characters, draws[..|draws| - 1]) + CharAt(characters, draws[|draws| - 1])
  }

  /** The source's loop: `passwordLength` iterations, each appending the
      character at the drawn index (or nothing, when the index is out of
      range). It computes exactly Password(characters, draws). */
  method CreatePassword(characters: string, passwordLength: nat, draws: seq<nat>) returns (result: string)
    requires |draws| == passwordLength
    ensures result == Password(characters, draws)
    ensures |result| <= passwordLength
    ensures forall k :: 0 <= k < |result| ==> result[k] in characters
  {
    result := "";
    var i := 0;
    while i < passwordLength
      invariant 0 <= i <= passwordLength
      invariant result == Password(characters, draws[..i])
    {
      assert draws[..i + 1][..i] == draws[..i];
      result := result + CharAt(characters, draws[i]);
      i := i + 1;
    }
    assert draws[..passwordLength] == draws;
  }

  /** How many of the draws land inside an alphabet of `n` characters. */
  function Hits(n: nat, draws: seq<nat>): (h: nat)
    ensures h <= |draws|
    ensures h == |draws| <== InRange(n, draws)
    decreases |draws|
  {
    if |draws| == 0 then 0
    else Hits(n, draws[..|draws| - 1]) + (if draws[|draws| - 1] < n then 1 else 0)
  }

  /** Every draw that misses shortens the password by one: its length is
      the number of draws that land inside the alphabet. */
  lemma {:induction false} PasswordLengthIsHits(characters: string, draws: seq<nat>)
    ensures |Password(characters, draws)| == Hits(|characters|, draws)
    decreases |draws|
  {
    if |draws| > 0 {
      PasswordLengthIsHits(characters, draws[..|draws| - 1]);
    }
  }

  /** All draws land inside an alphabet of `n` characters exactly when
      every one of them counts as a hit. */
  lemma {:induction false} HitsAllIff(n: nat, draws: seq<nat>)
    ensures Hits(n, draws) == |draws| <==> InRange(n, draws)
    decreases |draws|
  {
    if |draws| > 0 {
      var init := draws[..|draws| - 1];
      HitsAllIff(n, init);
      if Hits(n, draws) == |draws| {
        assert Hits(n, init) == |init| && draws[|draws| - 1] < n;
        forall k | 0 <= k < |draws|
          ensures draws[k] < n
        {
          if k < |init| {
            assert draws[k] == init[k];
          }
        }
      }
    }
  }

  /** The password has the requested length exactly when no draw
      reached past the end of the alphabet, and then it spells out the
      drawn characters in draw order. */
  lemma ExactLengthIff(characters: string, draws: seq<nat>)
    ensures |Password(characters, draws)| == |draws| <==> InRange(|characters|, draws)
    ensures InRange(|characters|, draws) ==>
      forall k :: 0 <= k < |draws| ==> Password(characters, draws)[k] == characters[draws[k]]
  {
    PasswordLengthIsHits(characters, draws);
    HitsAllIff(|characters|, draws);
    if InRange(|characters|, draws) {
      PasswordPicksDrawnChars(characters, draws);
    }
  }

  /** When every draw is inside the alphabet, position k of the password
      is the alphabet character at the k-th drawn index. */
  lemma {:induction false} PasswordPicksDrawnChars(characters: string, draws: seq<nat>)
    requires InRange(|characters|, draws)
    ensures |Password(characters, draws)| == |draws|
    ensures forall k :: 0 <= k < |draws| ==> Password(characters, draws)[k] == characters[draws[k]]
    decreases |draws|
  {
    if |draws| > 0 {
      var init := draws[..|draws| - 1];
      assert InRange(|characters|, init) by {
        forall k | 0 <= k < |init|
          ensures init[k] < |characters|
        {
          assert init[k] == draws[k];
        }
      }
      PasswordPicksDrawnChars(characters, init);
    }
  }

  /** An empty alphabet yields the empty password, whatever is drawn. */
  lemma EmptyAlphabetGivesEmptyPassword(draws: seq<nat>)
    ensures Password("", draws) == ""
  {
  }

  /** Over a non-empty request, some draws the rounding can produce yield
      a password shorter than requested: the last draw rounds up to |A|. */
  lemma RoundingCanShorten(characters: string, passwordLength: nat)
    requires passwordLength > 0
    ensures exists draws :: |draws| == passwordLength && RoundedDraws(|characters|, draws)
                            && |Password(characters, draws)| < passwordLength
  {
    var draws := seq(passwordLength, k => |characters|);
    var init := draws[..passwordLength - 1];
    assert Password(characters, draws) == Password(characters, init) + CharAt(characters, |characters|);
    assert RoundedDraws(|characters|, draws);
  }

  /** Every string over the alphabet is the outcome of some in-range
      draws: no password of the right characters is out of reach. */
  lemma {:induction false} EveryPasswordReachable(characters: string, p: string)
    requires forall k :: 0 <= k < |p| ==> p[k] in characters
    ensures exists draws :: |draws| == |p| && InRange(|characters|, draws)
                            && Password(characters, draws) == p
    decreases |p|
  {
    if |p| == 0 {
      assert Password(characters, []) == p;
    } else {
      var init := p[..|p| - 1];
      EveryPasswordReachable(characters, init);
      var before: seq<nat> :| |before| == |init| && InRange(|characters|, before)
                    && Password(characters, before) == init;
      var j :| 0 <= j < |characters| && characters[j] == p[|p| - 1];
      var draws: seq<nat> := before + [j];
      PasswordSnoc(characters, before, j);
      assert Password(characters, draws) == init + [p[|p| - 1]];
      assert p == init + [p[|p| - 1]];
      forall k | 0 <= k < |draws|
        ensures draws[k] < |characters|
      {
        if k < |before| {
          assert draws[k] == before[k];
        }
      }
    }
  }

  /** One more draw appends its charAt result to the password. */
  lemma PasswordSnoc(characters: string, draws: seq<nat>, i: nat)
    ensures Password(characters, draws + [i]) == Password(characters, draws) + CharAt(characters, i)
  {
    assert (draws + [i])[..|draws|] == draws;
  }

  // ---------------------------------------------------------------------
  // The lowercase literal as written and as intended
  // ---------------------------------------------------------------------

  /** With the literals as the source spells them, no generated password
      ever contains 'x', whatever the flags and the draws. */
  lemma AsWrittenNeverEmitsX(f: Flags, draws: seq<nat>)
    ensures 'x' !in Password(Alphabet(AsWritten, f), draws)
  {
    var a := Alphabet(AsWritten, f);
    if 'x' in a {
      AlphabetMembership(AsWritten, f, 'x');
      var c :| f.Enabled(c) && 'x' in AsWritten.Chars(c);
      NoLiteralHasX(c);
    }
    assert 'x' !in a;
  }

  /** With the corrected literals and lowercase switched on, every
      all-lowercase string, 'x' included, is a password the generator can
      produce from draws inside the alphabet. */
  lemma IntendedReachesEveryLowercasePassword(f: Flags, p: string)
    requires f.lowerCase
    requires forall k :: 0 <= k < |p| ==> 'a' <= p[k] <= 'z'
    ensures exists draws :: |draws| == |p| && InRange(|Alphabet(Intended, f)|, draws)
                            && Password(Alphabet(Intended, f), draws) == p
  {
    IntendedLiteralsExact();
    forall k | 0 <= k < |p|
      ensures p[k] in Alphabet(Intended, f)
    {
      assert f.Enabled(Lower) && p[k] in Intended.Chars(Lower);
      AlphabetMembership(Intended, f, p[k]);
    }
    EveryPasswordReachable(Alphabet(Intended, f), p);
  }
}
