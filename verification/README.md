# Password generator screen — Dafny model

The repository is a single React Native screen (`App.tsx`). It lets a user
pick character classes (lowercase, uppercase, digits, symbols) with four
checkboxes, enter a length, and generate a random password. This project
models the screen's logic:

- **Alphabet assembly** (`generatePasswordString`). The literals of the
  enabled classes are appended in a fixed order: lowercase, uppercase,
  digits, symbols.
- **Password construction** (`createPassword`). A loop of `passwordLength`
  iterations. Each iteration draws an index and appends
  `characters.charAt(index)`.
- **Screen state**. Four flags, the password, and the "generated" mark.
  The transitions are the checkbox toggles, submit and reset.

Modules:

- `Charsets` (`charsets.dfy`): the four literals. It keeps two tables:
  `AsWritten`, spelled as in the source, and `Intended`, with the lowercase
  literal corrected (see Findings).
- `Generator` (`generator.dfy`): `Alphabet` and its reference definition
  `Selected` over the class order. `Password` is the functional definition
  of the loop, and `CreatePassword` is the loop itself. The file also holds
  the lemmas about length, membership and reachability.
- `Screen` (`screen.dfy`): the state record, `Toggle`, `Submit` and its
  step-by-step counterpart `GeneratePasswordString`, `Reset`,
  event histories (`Step`, `Run`), and the state invariant `Consistent`.

Randomness is a parameter. Each iteration's index is
`Math.round(Math.random() * |A|)` in the source. Here the caller passes
`draws`, one index per iteration. The source's draws fall in the closed
range `[0, |A|]` (`RoundedDraws`), because rounding can reach `|A|`.
JavaScript's `charAt` returns `""` for an index past the end, so such a
draw adds nothing to the password.

Two behaviours of the code are exposed by the model rather than hidden:

- App.tsx:53 rounds with `Math.round`, so an index can equal `|A|`. Then
  `charAt` adds nothing, and the password comes out shorter than the
  requested length. `ExactLengthIff` shows the length is exact only when
  every index is below `|A|`. `RoundingCanShorten` shows that indices in
  the rounded range can make it shorter.
- With all four flags off the alphabet is `""`. Every `charAt` then
  returns `""`, so the password is empty (`EmptyAlphabetGivesEmptyPassword`).

The transitions that build a password (`Submit`, `GeneratePasswordString`,
`Step`, `Run`) and the invariant `Consistent` take the literal table as a
parameter `lits`. The screen of App.tsx is the instance `AsWritten`. The
instance `Intended` is the same screen with the lowercase literal corrected
(see Findings). `AsWrittenScreenNeverShowsX` and `CorrectedScreenShowsX`
state where the two instances differ.

## Model

| member | source | states |
|---|---|---|
| Charsets.IntendedLiteralsExact | App.tsx:27-30 | The uppercase and digit literals are exactly the ranges A–Z and 0–9, each character once. The symbol literal has 12 distinct characters. The corrected lowercase literal is exactly a–z. |
| Charsets.AsWrittenLowerDefect | App.tsx:28 | The lowercase literal as written has 26 characters, all in a–z. It has no 'x'. Its 'z' sits at positions 23 and 25 and nowhere else, so it is not repeat-free. |
| Charsets.NoLiteralHasX | App.tsx:27-30 | None of the four literals as written contains 'x'. |
| Generator.Alphabet | App.tsx:25-43 | The character list has the summed length of the enabled literals. It is empty when all four flags are off. |
| Generator.AlphabetInClassOrder | App.tsx:25-43 | The assembled character list equals the enabled classes' literals concatenated in the order lowercase, uppercase, digits, symbols. |
| Generator.AlphabetMembership | App.tsx:32-43 | A character is in the alphabet if and only if some enabled class's literal contains it. |
| Generator.AlphabetLength | App.tsx:27-43 | For the source's literals, and the corrected ones, the alphabet length is 26·[lower] + 26·[upper] + 10·[number] + 12·[symbols]. |
| Generator.AlphabetEmptyIff | App.tsx:27-43 | The alphabet is empty if and only if all four flags are off. |
| Generator.CharAt | App.tsx:54 | charAt gives one character, the one at the index, when the index is in range, and the empty string otherwise. |
| Generator.Password | App.tsx:50-57 | The built password is never longer than the number of draws. Every character in it comes from the alphabet. |
| Generator.CreatePassword | App.tsx:50-57 | The loop of `passwordLength` charAt appends computes the reference `Password`. The result is at most `passwordLength` long and uses only alphabet characters. |
| Generator.PasswordLengthIsHits | App.tsx:52-55 | The password length equals the number of draws that fall inside the alphabet. |
| Generator.ExactLengthIff | App.tsx:51-56 | The password has the requested length if and only if every draw is below the alphabet length. In that case character k is the alphabet character at the k-th drawn index. |
| Generator.PasswordPicksDrawnChars | App.tsx:52-54 | When every draw is in range, character k of the password is the alphabet character at the k-th drawn index. |
| Generator.EmptyAlphabetGivesEmptyPassword | App.tsx:52-54 | An empty alphabet always yields the empty password. |
| Generator.RoundingCanShorten | App.tsx:53-54 | For any alphabet and any positive length, some draws in the rounded range [0, \|A\|] yield a password shorter than requested. |
| Generator.EveryPasswordReachable | App.tsx:52-54 | Every string of alphabet characters, of any length, is the outcome of some in-range draws. |
| Generator.AsWrittenNeverEmitsX | App.tsx:28-54 | With the literals as written, no generated password contains 'x', for any flags and any draws. |
| Generator.IntendedReachesEveryLowercasePassword | App.tsx:28 | With the corrected literal and lowercase on, every all-lowercase string is a password some in-range draws produce. This includes strings containing 'x'. |
| Screen.Initial | App.tsx:17-22 | At mount there is no password and none is marked generated. The alphabet is the lowercase literal alone, for both literal tables. |
| Screen.Toggle | App.tsx:117-144 | A checkbox press flips its own class's flag. It leaves the other three flags, the password and the generated mark unchanged. |
| Screen.ToggleTwiceRestores | App.tsx:117-144 | Pressing the same checkbox twice restores the state. |
| Screen.ToggleParity | App.tsx:117-144 | After any sequence of presses, a class is on if and only if its initial value differs from the parity of its press count. Password and generated mark are unchanged. |
| Screen.ToggleOrderIrrelevant | App.tsx:117-144 | Two press sequences that are reorderings of each other give the same state. So for every literal table they give the same alphabet, which depends only on how the flags end up, not on the order of presses. |
| Screen.GeneratePasswordString | App.tsx:24-48 | For a given literal table, the handler's steps give the same state as `Submit`. The steps are four appends onto an empty list, the character loop, and storing the result. The stored password is the loop's result over the enabled literals in class order. |
| Screen.Submit | App.tsx:45-47 | Submit marks the password generated and keeps all four flags. The password uses only characters of the current alphabet of the given table and is at most the requested length. It is exactly that length if and only if every draw is in range, and then it holds the drawn characters in order. |
| Screen.Reset | App.tsx:59-66 | From any state, reset gives the mount state (lines 17-22): empty password, not generated, lowercase on, the other three flags off. |
| Screen.ResetIdempotent | App.tsx:59-66 | Resetting twice equals resetting once. |
| Screen.Step | App.tsx:45-47 | A checkbox press leaves the password and its mark alone. A submit keeps the flags, marks the password generated and is at most the requested length. A reset gives the mount state. |
| Screen.ResetAfterAnyHistory | App.tsx:59-66 | After any history of toggles, submits and resets, a reset returns to the mount state. |
| Screen.StepPreservesConsistent | App.tsx:17-66 | For any literal table, the mount state satisfies the invariant and every transition preserves it. The invariant: no password unless one is marked generated, and every character is one that some class of that table offers. |
| Screen.RunPreservesConsistent | App.tsx:17-66 | For any literal table, every state reachable from a consistent state by any event history is consistent. |
| Screen.AsWrittenFullAlphabetHasNoX | App.tsx:27-43 | With the literals as written, even the alphabet with all four classes on has no 'x'. |
| Screen.AsWrittenScreenNeverShowsX | App.tsx:17-66 | On the screen as written, no history of presses, submits and resets from the mount state shows a password containing 'x'. |
| Screen.CorrectedScreenShowsX | App.tsx:28 | From the mount state, a submit of length 1 with draw 23 shows "x" on the corrected screen and "z" on the screen as written. |

## Left out

- JSX layout, styles and the "Follow me on Github" link (App.tsx:68-301). These are presentation only.
- Formik/Yup validation (App.tsx:9-14, 73-79, 151). It is library behaviour. `Submit` accepts any natural length. The form only lets through lengths of 4 to 16, but `generatePasswordString` itself places no bound on its argument.
- Non-integer lengths. The Yup schema has no integer rule, so a length such as 4.5 would pass validation and the loop would run 5 times. The model takes a natural number, as the `+values.passwordLength` coercion (App.tsx:78) is assumed to deliver.
- `Math.random` and `Math.round` (App.tsx:53). These are floating point and nondeterministic. Draws are a parameter bounded by `[0, |A|]`. The distribution and the rounding bias are not modelled.
- `console.log` (App.tsx:44, 77). Output only.
- Formik's `handleReset` (App.tsx:160), which clears the length text field. The field is form state, not component state.
- React state batching and re-rendering. Each transition updates the state record atomically.

## Findings

| source | as written | input that shows it | evidently intended | confidence | as-written member | corrected member |
|---|---|---|---|---|---|---|
| App.tsx:28 | the lowercase literal is `'abcdefghijklmnopqrstuvwzyz'`: no 'x', and 'z' twice | lowercase enabled, any length and any draws: no password ever contains 'x', and 'z' occupies two of the 26 lowercase indices | the full alphabet `'abcdefghijklmnopqrstuvwxyz'` | high (not executed) | Generator.AsWrittenNeverEmitsX | Generator.IntendedReachesEveryLowercasePassword |
