/** The screen state of App.tsx (lines 17-22) and the transitions the
    user drives: the four checkbox handlers (lines 117, 126, 135, 144),
    the generate action (lines 45-47) and the reset action (lines 59-66).
    Each transition updates the whole record at once.

    The transitions that build a password take the literal table `lits`
    they draw from: the screen of App.tsx is the instance `AsWritten`, and
    the instance `Intended` is the same screen with the lowercase literal
    corrected. */
module Screen {
  import opened Charsets
  import opened Generator

  /** The six pieces of component state. */
  datatype State = State(password: string, isPassGenerated: bool, flags: Flags)

  /** The state the component mounts with: no password, not generated, and
      an alphabet of the lowercase literal alone. */
  function Initial(): (r: State)
    ensures !r.isPassGenerated && r.password == ""
    ensures Alphabet(AsWritten, r.flags) == AsWritten.lower
    ensures Alphabet(Intended, r.flags) == Intended.lower
  {
    State("", false, Flags(true, false, false, false))
  }

  /** Pressing the checkbox of class `c` flips that flag and nothing else. */
  function Toggle(s: State, c: CharClass): (r: State)
    ensures r.password == s.password && r.isPassGenerated == s.isPassGenerated
    ensures r.flags.Enabled(c) == !s.flags.Enabled(c)
    ensures forall d :: d != c ==> r.flags.Enabled(d) == s.flags.Enabled(d)
  {
    match c
    case Lower => s.(flags := s.flags.(lowerCase := !s.flags.lowerCase))
    case Upper => s.(flags := s.flags.(upperCase := !s.flags.upperCase))
    case Digit => s.(flags := s.flags.(number := !s.flags.number))
    case Symbol => s.(flags := s.flags.(symbols := !s.flags.symbols))
  }

  /** Submitting a length: the password is built from the alphabet of the
      flags currently on and the result is marked generated; the flags stay
      as they are. The password holds only alphabet characters, is at most
      `passwordLength` long, and is exactly that long, with the drawn
      characters in draw order, precisely when every draw is in range. */
  function Submit(lits: Literals, s: State, passwordLength: nat, draws: seq<nat>): (r: State)
    requires |draws| == passwordLength
    ensures r.isPassGenerated && r.flags == s.flags
    ensures |r.password| <= passwordLength
    ensures forall k :: 0 <= k < |r.password| ==> r.password[k] in Alphabet(lits, s.flags)
    ensures |r.password| == passwordLength <==> InRange(|Alphabet(lits, s.flags)|, draws)
    ensures InRange(|Alphabet(lits, s.flags)|, draws) ==>
      forall k :: 0 <= k < passwordLength ==> r.password[k] == Alphabet(lits, s.flags)[draws[k]]
  {
    var characterList := Alphabet(lits, s.flags);
    ExactLengthIff(characterList, draws);
    s.(password := Password(characterList, draws), isPassGenerated := true)
  }

  /** The generate handler step by step: append the enabled literals to an
      empty character list, run the character loop, then store the result
      and mark it generated. It agrees with Submit on every input. */
  method GeneratePasswordString(lits: Literals, s: State, passwordLength: nat, draws: seq<nat>)
    returns (r: State)
    requires |draws| == passwordLength
    ensures r == Submit(lits, s, passwordLength, draws)
    ensures r.password == Password(Selected(lits, s.flags, ClassOrder), draws)
  {
    var characterList := "";
    if s.flags.lowerCase {
      characterList := characterList + lits.lower;
    }
    if s.flags.upperCase {
      characterList := characterList + lits.upper;
    }
    if s.flags.number {
      characterList := characterList + lits.digits;
    }
    if s.flags.symbols {
      characterList := characterList + lits.special;
    }
    assert characterList == Alphabet(lits, s.flags) by {
      if s.flags.lowerCase {
        assert "" + lits.lower == lits.lower;
      }
    }
    AlphabetInClassOrder(lits, s.flags);
    var passwordResult := CreatePassword(characterList, passwordLength, draws);
    r := s.(password := passwordResult, isPassGenerated := true);
  }

  /** The reset button: every field is set back, so the result is the
      mount state whatever the state before. */
  function Reset(s: State): (r: State)
    ensures r == Initial()
    ensures r.password == "" && !r.isPassGenerated
    ensures r.flags.lowerCase && !r.flags.upperCase && !r.flags.number && !r.flags.symbols
  {
    s.(isPassGenerated := false, password := "",
       flags := s.flags.(lowerCase := true, number := false, symbols := false, upperCase := false))
  }

  /** Resetting twice is the same as resetting once. */
  lemma ResetIdempotent(s: State)
    ensures Reset(Reset(s)) == Reset(s)
  {
  }

  // ---------------------------------------------------------------------
  // Toggle histories
  // ---------------------------------------------------------------------

  /** Pressing the same checkbox twice restores the state. */
  lemma ToggleTwiceRestores(s: State, c: CharClass)
    ensures Toggle(Toggle(s, c), c) == s
  {
    FlagsExtensional(Toggle(Toggle(s, c), c).flags, s.flags);
  }

  /** The checkbox presses `cs`, applied first to last. */
  function ApplyToggles(s: State, cs: seq<CharClass>): State
    decreases |cs|
  {
    if |cs| == 0 then s else ApplyToggles(Toggle(s, cs[0]), cs[1..])
  }

  /** After a run of presses, a class is on exactly when it started on
      and was pressed an even number of times, or started off and was
      pressed an odd number of times; password and generated mark stay. */
  lemma {:induction false} ToggleParity(s: State, cs: seq<CharClass>)
    ensures ApplyToggles(s, cs).password == s.password
    ensures ApplyToggles(s, cs).isPassGenerated == s.isPassGenerated
    ensures forall c :: ApplyToggles(s, cs).flags.Enabled(c)
                          == (s.flags.Enabled(c) != (multiset(cs)[c] % 2 == 1))
    decreases |cs|
  {
    if |cs| > 0 {
      ToggleParity(Toggle(s, cs[0]), cs[1..]);
      assert cs == [cs[0]] + cs[1..];
      assert multiset(cs) == multiset{cs[0]} + multiset(cs[1..]);
    }
  }

  /** Presses that differ only in their order leave the same state, and
      so the same alphabet. */
  lemma ToggleOrderIrrelevant(s: State, cs: seq<CharClass>, ds: seq<CharClass>)
    requires multiset(cs) == multiset(ds)
    ensures ApplyToggles(s, cs) == ApplyToggles(s, ds)
    ensures forall lits :: Alphabet(lits, ApplyToggles(s, cs).flags) == Alphabet(lits, ApplyToggles(s, ds).flags)
  {
    ToggleParity(s, cs);
    ToggleParity(s, ds);
    FlagsExtensional(ApplyToggles(s, cs).flags, ApplyToggles(s, ds).flags);
  }

  // ---------------------------------------------------------------------
  // Event histories
  // ---------------------------------------------------------------------

  /** What the user can do on the screen. */
  datatype Event =
    | ToggleClass(c: CharClass)
    | SubmitForm(passwordLength: nat, draws: seq<nat>)
    | ResetForm

  /** A submit event carries one drawn index per loop iteration. */
  predicate WellFormed(e: Event) {
    e.SubmitForm? ==> |e.draws| == e.passwordLength
  }

  /** One transition. */
  /** One transition: a press changes only the flags, a submit only the
      password and its mark, and a reset restores the mount state. */
  function Step(lits: Literals, s: State, e: Event): (r: State)
    requires WellFormed(e)
    ensures e.ToggleClass? ==> r.password == s.password && r.isPassGenerated == s.isPassGenerated
    ensures e.SubmitForm? ==> r.flags == s.flags && r.isPassGenerated
                              && |r.password| <= e.passwordLength
    ensures e.ResetForm? ==> r == Initial()
  {
    match e
    case ToggleClass(c) => Toggle(s, c)
    case SubmitForm(n, draws) => Submit(lits, s, n, draws)
    case ResetForm => Reset(s)
  }

  /** A whole history of events, first to last. */
  function Run(lits: Literals, s: State, evs: seq<Event>): State
    requires forall i :: 0 <= i < |evs| ==> WellFormed(evs[i])
    decreases |evs|
  {
    if |evs| == 0 then s else Run(lits, Step(lits, s, evs[0]), evs[1..])
  }

  /** Every character any class of `lits` can contribute. */
  function FullAlphabet(lits: Literals): string {
    Alphabet(lits, Flags(true, true, true, true))
  }

  /** The state invariant: no password is held while none is marked
      generated, and the password only uses characters of some class. */
  predicate Consistent(lits: Literals, s: State) {
    && (!s.isPassGenerated ==> s.password == "")
    && forall k :: 0 <= k < |s.password| ==> s.password[k] in FullAlphabet(lits)
  }

  /** Any alphabet is drawn from the full one. */
  lemma AlphabetWithinFull(lits: Literals, f: Flags, ch: char)
    requires ch in Alphabet(lits, f)
    ensures ch in FullAlphabet(lits)
  {
    AlphabetMembership(lits, f, ch);
    AlphabetMembership(lits, Flags(true, true, true, true), ch);
  }

  /** The mount state is consistent and every transition keeps it so. */
  lemma StepPreservesConsistent(lits: Literals, s: State, e: Event)
    requires WellFormed(e)
    ensures Consistent(lits, Initial())
    ensures Consistent(lits, s) ==> Consistent(lits, Step(lits, s, e))
  {
    if e.SubmitForm? {
      var r := Step(lits, s, e);
      forall k | 0 <= k < |r.password|
        ensures r.password[k] in FullAlphabet(lits)
      {
        AlphabetWithinFull(lits, s.flags, r.password[k]);
      }
    }
  }

  /** Every state reachable from a consistent one is consistent. */
  lemma {:induction false} RunPreservesConsistent(lits: Literals, s: State, evs: seq<Event>)
    requires forall i :: 0 <= i < |evs| ==> WellFormed(evs[i])
    requires Consistent(lits, s)
    ensures Consistent(lits, Run(lits, s, evs))
    decreases |evs|
  {
    if |evs| > 0 {
      StepPreservesConsistent(lits, s, evs[0]);
      RunPreservesConsistent(lits, Step(lits, s, evs[0]), evs[1..]);
    }
  }

  /** Reset after any history returns to the mount state. */
  lemma ResetAfterAnyHistory(lits: Literals, s: State, evs: seq<Event>)
    requires forall i :: 0 <= i < |evs| ==> WellFormed(evs[i])
    ensures Step(lits, Run(lits, s, evs), ResetForm) == Initial()
  {
  }

  // ---------------------------------------------------------------------
  // The screen as written and as corrected
  // ---------------------------------------------------------------------

  /** The literals as written offer no 'x' in any class. */
  lemma AsWrittenFullAlphabetHasNoX()
    ensures 'x' !in FullAlphabet(AsWritten)
  {
    if 'x' in FullAlphabet(AsWritten) {
      AlphabetMembership(AsWritten, Flags(true, true, true, true), 'x');
      var c :| 'x' in AsWritten.Chars(c);
      NoLiteralHasX(c);
    }
  }

  /** On the screen as written, no history of presses, submits and resets
      from the mount state ever shows a password containing 'x'. */
  lemma AsWrittenScreenNeverShowsX(evs: seq<Event>)
    requires forall i :: 0 <= i < |evs| ==> WellFormed(evs[i])
    ensures 'x' !in Run(AsWritten, Initial(), evs).password
  {
    StepPreservesConsistent(AsWritten, Initial(), ResetForm);
    RunPreservesConsistent(AsWritten, Initial(), evs);
    AsWrittenFullAlphabetHasNoX();
  }

  /** On the corrected screen, submitting length 1 from the mount state
      with draw 23 shows "x"; the screen as written shows "z" there. */
  lemma CorrectedScreenShowsX()
    ensures Run(Intended, Initial(), [SubmitForm(1, [23])]).password == "x"
    ensures Run(AsWritten, Initial(), [SubmitForm(1, [23])]).password == "z"
  {
    var e := SubmitForm(1, [23]);
    assert [e][1..] == [];
    assert Intended.lower[23] == 'x' && AsWritten.lower[23] == 'z';
  }
}
