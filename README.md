# Rotor cipher machine: permutations, moving rotors, stepping and the signal path

This project models the core of a rotor cipher machine in the Enigma style.

- **Permutations.** A permutation over an alphabet is built from cycle
  notation such as `"(AELTPHQXRU) (BKNW)"`. Its mapping table `slist` starts
  as the identity. Every cycle token then overwrites the entries of its own
  characters. `permute` is a table lookup modulo the alphabet size.
  `invert` is a reverse lookup with `indexOf`. `derangement` tests for
  fixed points.
- **Moving rotors.** A moving rotor has a set of notch characters and a
  setting that advances by one modulo the alphabet size.
- **The machine.** It has a slot array of rotors. Slot 0 holds the
  reflector, and the rightmost `pawls` slots hold the moving rotors. It also
  has a plugboard permutation. For each character the machine does three
  things in order:
  - First it marks which moving rotors step. Every notch is sampled before
    any rotor moves.
  - Then it advances the marked rotors.
  - Then it sends the signal through the plugboard, the rotors from right to
    left, back from slot 1 to the rightmost slot (the reflector is passed
    once), and finally through the inverse plugboard.

  A message is stripped of whitespace and converted one character at a
  time, with the rotor state carried from one character to the next.

The permutation is a value (`datatype Permutation`). Its constructor and
`addCycle` fill an array in loops (`NewPermutation`, `AddCycle`). Each is
proved equal to a functional definition (`FromCycles`, `ApplyCycle`), and
the permutation's properties are proved about those definitions.

Rotors are objects (`class Rotor`), because the machine's slots alias the
available rotors and stepping changes their settings in place. The machine
is a `class`. Its slot array is an `array<Rotor?>`, and its settings, seen
as a sequence, are followed through each method. Every method that
changes settings may change only the rotors in the slots (`modifies
Inserted()`), so a rotor that is not inserted keeps its setting, as in the
source. The stepping rule is the
function `Step` (through `Marks` and `Bumped`), and the signal path is the
function `Signal`. `Convert` and `ConvertMessage` are proved to compute
exactly those functions.

Rotor.java and Alphabet.java are not part of this model. They are replaced
by minimal stand-ins:
- The alphabet is a sequence of distinct characters, with `ToInt` and
  `ToChar` inverse to each other.
- A rotor holds a permutation and a setting in `[0, size)`. Its forward
  passage is the permutation conjugated by the setting, and its backward
  passage is the inverse of that.

## Model

| member | source | states |
|---|---|---|
| Permutations.Rem | proj1/enigma/Permutation.java:51 | the language's `%`: the remainder takes the sign of the dividend, magnitude below the divisor |
| Permutations.Permutation.Wrap | proj1/enigma/Permutation.java:50-56 | the result lies in [0, size) and is p mod size, also for negative p |
| Permutations.SizeIsLength | proj1/enigma/Permutation.java:59-61 | the permutation's size is its alphabet's size, which is also the table's length, and it is positive |
| Permutations.Permutation.Permute | proj1/enigma/Permutation.java:65-67 | the image is a valid index and is one of the table's entries |
| Permutations.PermuteWraps | proj1/enigma/Permutation.java:65-67 | `permute(p) == permute(wrap(p))` |
| Permutations.Permutation.Invert | proj1/enigma/Permutation.java:71-73 | -1 exactly when no table entry equals c mod size; otherwise the result is the first position holding c mod size, as `indexOf` returns |
| Permutations.InvertPermute | proj1/enigma/Permutation.java:65-73 | for a bijective table, `invert(permute(x)) == wrap(x)` |
| Permutations.PermuteInvert | proj1/enigma/Permutation.java:65-73 | for a bijective table, `permute(invert(x)) == wrap(x)` |
| Permutations.Permutation.PermuteChar | proj1/enigma/Permutation.java:77-80 | succeeds exactly for alphabet characters, with an alphabet character as image |
| Permutations.Permutation.InvertChar | proj1/enigma/Permutation.java:83-86 | success implies both characters are in the alphabet; for a bijective table it succeeds exactly for alphabet characters |
| Permutations.InvertCharPermuteChar | proj1/enigma/Permutation.java:77-86 | for a bijective table, inverting the permuted character gives the character back |
| Permutations.PermuteCharInvertChar | proj1/enigma/Permutation.java:77-86 | for a bijective table, inverting an alphabet character succeeds and permuting the result gives the character back |
| Permutations.Permutation.Derangement | proj1/enigma/Permutation.java:95-102 | true iff no table value's first position equals that value; false names a fixed point; for a bijection, true iff no index maps to itself |
| Permutations.DerangementSees | proj1/enigma/Permutation.java:96-98 | on any table a rejection by the first-position test names a fixed point; on a bijective table the first-position test and the fixed-point test agree |
| Permutations.InvolutionIsBijection | proj1/enigma/Permutation.java:71-73 | a table that is its own inverse is a bijection, so reverse lookup inverts it |
| Permutations.StripParens | proj1/enigma/Permutation.java:24 | a character survives iff it was in the string and is not a parenthesis |
| Permutations.Split | proj1/enigma/Permutation.java:25 | splitting on spaces yields at least one token and no token contains a space |
| Permutations.SplitConcat | proj1/enigma/Permutation.java:25 | the tokens written together are the string with its spaces removed |
| Permutations.JoinSplit | proj1/enigma/Permutation.java:25 | joining the tokens with single spaces gives the string back; with no token holding a space, the tokens break exactly at the spaces |
| Permutations.TokensLetters | proj1/enigma/Permutation.java:24-25 | after removing parentheses and splitting, the tokens together are exactly the cycle letters |
| Permutations.Table | proj1/enigma/Permutation.java:21-28 | the table built from the tokens has one entry per alphabet character, each an index |
| Permutations.FromCycles | proj1/enigma/Permutation.java:18-30 | a successful construction is a well-formed permutation over the given alphabet |
| Permutations.AddCycle | proj1/enigma/Permutation.java:34-47 | succeeds iff every cycle character is in the alphabet; the array then holds the cycle applied to the old table, in the source's assignment order |
| Permutations.ApplyCycle | proj1/enigma/Permutation.java:36-46 | the table after the first k assignments of a cycle keeps its length; it is the definition the `AddCycle` loop is proved equal to, and `AddCycleEffect`, `AddCycleKeepsBijection` and `TableSuccessor` prove its meaning |
| Permutations.SetSuccessor | proj1/enigma/Permutation.java:37-45 | one turn maps character i to the next cycle character (the last to the first) and changes no other entry |
| Permutations.AddCycleEffect | proj1/enigma/Permutation.java:34-47 | each cycle character maps to its successor (the last to the first); entries outside the cycle are unchanged |
| Permutations.AddCycleKeepsBijection | proj1/enigma/Permutation.java:34-47 | adding a cycle of distinct characters untouched by earlier cycles to a bijection keeps it a bijection |
| Permutations.TableFixes | proj1/enigma/Permutation.java:15-16 | a character absent from every token maps to itself and is the image of nothing else |
| Permutations.TableBijective | proj1/enigma/Permutation.java:18-30 | with no letter repeated across or within tokens, the table is a bijection |
| Permutations.TableSuccessor | proj1/enigma/Permutation.java:36-46 | with distinct letters, each token character maps to the next one in its token, cyclically |
| Permutations.NewPermutation | proj1/enigma/Permutation.java:18-30 | the constructor's loops (identity fill, then one addCycle per token) compute exactly `FromCycles` |
| Permutations.AbsentIsFixed | proj1/enigma/Permutation.java:15-16 | alphabet characters absent from every cycle map to themselves |
| Permutations.NoCyclesIsIdentity | proj1/enigma/Permutation.java:24-28 | a cycles string of only parentheses and spaces, the empty one included, yields the identity |
| Permutations.DistinctCyclesBijective | proj1/enigma/Permutation.java:18-47 | when no character repeats, the constructed table is a bijection |
| Permutations.CycleSuccessor | proj1/enigma/Permutation.java:32-47 | when no character repeats, each cycle character maps to the next one and the last to the first |
| Permutations.AbsentDefeatsDerangement | proj1/enigma/Permutation.java:93-102 | a character absent from every cycle makes the derangement test report a fixed point |
| Alphabets.Alphabet.ToInt | proj1/enigma/Permutation.java:78 | the index of an alphabet character, at which the character stands |
| Alphabets.Alphabet.ToChar | proj1/enigma/Permutation.java:79 | the character at an index is an alphabet character |
| Alphabets.ToCharToInt | proj1/enigma/Permutation.java:77-80 | `toChar(toInt(c)) == c` for an alphabet character |
| Alphabets.ToIntToChar | proj1/enigma/Permutation.java:77-80 | `toInt(toChar(i)) == i` for an index of a valid alphabet |
| Rotors.Rotor.constructor | proj1/enigma/MovingRotor.java:15-18 | a rotor with the given name, kind (notches) and permutation, at setting 0 |
| Rotors.Rotor.AtNotch | proj1/enigma/MovingRotor.java:22-29 | true iff the alphabet character at the setting is one of the notches; false for rotors that do not move |
| Rotors.Rotor.Rotates | proj1/enigma/MovingRotor.java:30-33 | true exactly for moving rotors, as a `MovingRotor`'s `rotates()` always returns true and the other kinds return false |
| Rotors.StillNeverAtNotch | proj1/enigma/MovingRotor.java:21-33 | a rotor that does not rotate is never at a notch, whatever its setting; only moving rotors have notches |
| Rotors.Rotor.Advance | proj1/enigma/MovingRotor.java:35-37 | a moving rotor's setting becomes (setting + 1) mod size, which is `Advanced(size, setting, 1)`, and stays an index; nothing else changes |
| Rotors.AdvancedIsShift | proj1/enigma/MovingRotor.java:35-37 | `Advanced(n, s, k)`, the setting after k calls of `Advance` (each one step of `Advanced`, by `Advance`'s contract), is (s + k) mod size |
| Rotors.FullRevolution | proj1/enigma/MovingRotor.java:35-37 | advancing size times restores the setting |
| Rotors.Rotor.Set | proj1/enigma/MovingRotor.java:36 | the setting becomes the given index and the rotor stays valid |
| Rotors.Rotor.SetChar | proj1/enigma/Machine.java:71 | setting by character gives the character's index |
| Rotors.Rotor.ConvertForward | proj1/enigma/Machine.java:102 | the forward passage is an index, and for a bijective table the backward passage undoes it |
| Rotors.Rotor.ConvertBackward | proj1/enigma/Machine.java:105 | the backward passage is an index, and for a bijective table the forward passage undoes it |
| Rotors.BackwardForward | proj1/enigma/Machine.java:101-106 | at a fixed setting the backward passage undoes the forward one |
| Rotors.ForwardBackward | proj1/enigma/Machine.java:101-106 | at a fixed setting the forward passage undoes the backward one |
| Rotors.ForwardInvolution | proj1/enigma/Machine.java:102 | a reflector whose table is an involution is its own inverse at any setting |
| Rotors.ForwardFixed | proj1/enigma/Machine.java:102 | a contact the rotor maps to itself comes from a fixed point of its table |
| Machines.Machine.constructor | proj1/enigma/Machine.java:14-23 | the machine keeps the alphabet, slot count, pawl count and available rotors, with no rotors inserted and no plugboard |
| Machines.Machine.Create | proj1/enigma/Machine.java:14-23 | fails with the too-many-pawls error iff pawls >= numRotors; otherwise the machine reports the given values |
| Machines.Machine.InsertRotors | proj1/enigma/Machine.java:38-54 | the outcome is the source's scan; on success, slot i holds the last available rotor named `rotors[i]` (or stays empty); on failure the machine is not usable |
| Machines.Machine.PassLoaded | proj1/enigma/Machine.java:38-54 | a passing insertion of `numRotors` found names whose chosen rotors are distinct, available and well formed over the machine's alphabet leaves the machine loaded |
| Machines.Violation | proj1/enigma/Machine.java:44-50 | no error iff the rotor rotates exactly when its slot is a moving one; "not supposed to rotate" iff a moving rotor sits left of the moving slots; "should rotate" iff a non-moving rotor sits among them |
| Machines.Scan | proj1/enigma/Machine.java:39-53 | the scan in the source's order ends in a pass or one of the two placement errors |
| Machines.ScanCulprit | proj1/enigma/Machine.java:41-50 | a failed scan names a real culprit: a requested rotor whose placement raises exactly the reported error |
| Machines.ScanPasses | proj1/enigma/Machine.java:44-50 | insertion passes iff no requested rotor is misplaced (a moving one left of the moving slots, or a non-moving one among them), and otherwise reports one of the two placement errors |
| Machines.LastMatch | proj1/enigma/Machine.java:41-43 | the last available rotor whose name matches, or -1 when none does |
| Machines.Machine.SetRotors | proj1/enigma/Machine.java:59-73 | rejects a wrong length and a missing reflector with no setting changed; otherwise sets slot i+1 from `setting[i]` in order, stopping at the first character outside the alphabet; slot 0 is never set |
| Machines.Machine.SetSlot | proj1/enigma/Machine.java:67-71 | one turn sets slot i+1 from `setting[i]` and keeps every other slot |
| Machines.Applied | proj1/enigma/Machine.java:66-72 | the settings after applying k setting characters keep slot 0 |
| Machines.Machine.SetPlugboard | proj1/enigma/Machine.java:76-78 | the plugboard is the given permutation and the slots are untouched |
| Machines.Machine.MarkSteps | proj1/enigma/Machine.java:86-94 | the notch array equals the marks of one stepping, read from the settings before any rotor moves |
| Machines.Marks | proj1/enigma/Machine.java:86-94 | one mark per moving slot; the declarative marks `MarkSteps` is proved to compute, with the stepping rules proved about `Step` |
| Machines.Machine.MarkNext | proj1/enigma/Machine.java:89-92 | one turn marks slot `mIndex` and its left neighbour exactly when that rotor is at its notch |
| Machines.Machine.MarkFastest | proj1/enigma/Machine.java:94 | marking the rightmost slot, after the notch scan, completes exactly the declarative marks |
| Machines.MarksComplete | proj1/enigma/Machine.java:88-94 | reading the notches in order and marking the rightmost slot gives exactly the declarative marks |
| Machines.Machine.AdvanceMarked | proj1/enigma/Machine.java:95-99 | every marked moving slot advances by one modulo the size; every other slot keeps its setting |
| Machines.Machine.AdvanceNext | proj1/enigma/Machine.java:96-98 | one turn advances the next moving slot iff it is marked |
| Machines.Machine.AdvanceSlot | proj1/enigma/Machine.java:97 | the moving rotor in slot j advances by one modulo the size; every other slot keeps its setting and the machine stays loaded |
| Machines.BumpedPrefix | proj1/enigma/Machine.java:95-99 | the marking one entry longer advances just that slot, if it is marked |
| Machines.BumpedSnoc | proj1/enigma/Machine.java:95-99 | one more mark advances just that slot, from where the shorter marking left it |
| Machines.Bumped | proj1/enigma/Machine.java:95-99 | marked moving slots advance by one modulo the size; every other slot is unchanged |
| Machines.Step | proj1/enigma/Machine.java:86-99 | one stepping keeps every setting an index |
| Machines.StepAt | proj1/enigma/Machine.java:86-99 | after one stepping, slot k has advanced by one iff it is a marked moving slot |
| Machines.FastRotorAlwaysSteps | proj1/enigma/Machine.java:94 | the rightmost rotor advances on every character |
| Machines.NotchPulls | proj1/enigma/Machine.java:88-97 | a moving rotor right of the leftmost moving one at its notch advances, and so does its left neighbour |
| Machines.LeftmostNotchIgnored | proj1/enigma/Machine.java:88 | the leftmost moving rotor advances exactly when it is rightmost or its right neighbour is at a notch; its own notch is never read |
| Machines.FixedSlotsStay | proj1/enigma/Machine.java:95-99 | slots left of the moving rotors never change |
| Machines.DoubleStep | proj1/enigma/Machine.java:88-99 | a middle rotor pulled onto its notch advances again on the next character, together with its left neighbour |
| Machines.Machine.PassForward | proj1/enigma/Machine.java:101-103 | the forward loop computes the forward passes from the rightmost slot down to slot 0 |
| Machines.Machine.PassBackward | proj1/enigma/Machine.java:104-106 | the backward loop computes the backward passes from slot 1 to the rightmost slot |
| Machines.Machine.Route | proj1/enigma/Machine.java:100-108 | the signal path computes `Signal`: inverse plugboard after the backward passes after the reflector after the forward passes after the plugboard |
| Machines.Fwd | proj1/enigma/Machine.java:101-103 | the forward passes yield an index |
| Machines.Bwd | proj1/enigma/Machine.java:104-106 | the backward passes yield an index |
| Machines.BwdFwd | proj1/enigma/Machine.java:101-106 | the backward passes undo the forward passes over the same slots |
| Machines.FwdBwd | proj1/enigma/Machine.java:101-106 | the forward passes undo the backward passes over the same slots |
| Machines.Q | proj1/enigma/Machine.java:100-103 | the plugboard followed by the forward passes through slots n-1..1 yields an index |
| Machines.QInv | proj1/enigma/Machine.java:104-107 | the backward passes through slots 1..n-1 followed by the inverse plugboard yield an index or -1 |
| Machines.Reflect | proj1/enigma/Machine.java:102 | the reflector's forward map yields an index |
| Machines.Signal | proj1/enigma/Machine.java:100-107 | the per-character map Q⁻¹ ∘ R ∘ Q is a valid index when the plugboard is a bijection |
| Machines.QRoundTrips | proj1/enigma/Machine.java:100-107 | Q⁻¹ is the inverse of Q, in both orders |
| Machines.SignalInvolution | proj1/enigma/Machine.java:100-107 | with an involutive reflector, enciphering the output at the same settings gives back the input |
| Machines.SignalNoFixedPoint | proj1/enigma/Machine.java:100-107 | with a reflector without fixed points, no character maps to itself |
| Machines.Machine.Convert | proj1/enigma/Machine.java:84-109 | the settings become one stepping of the old settings, and the result is `Signal` at the new settings |
| Machines.Stripped | proj1/enigma/Machine.java:114 | a character survives iff it was in the message and is not whitespace |
| Machines.FirstOutside | proj1/enigma/Machine.java:116-118 | the first position of a character outside the alphabet, or the length when there is none |
| Machines.CipherChar | proj1/enigma/Machine.java:117-118 | the i-th character's image, at the settings after i+1 steppings, is an alphabet character |
| Machines.Encipher | proj1/enigma/Machine.java:113-121 | the output has the stripped message's length and consists of alphabet characters |
| Machines.EncipherExtend | proj1/enigma/Machine.java:116-119 | enciphering one more character appends that character's image |
| Machines.CharRoundTrip | proj1/enigma/Machine.java:117-118 | one character enciphered twice at the same settings is unchanged |
| Machines.EncipherTwiceAt | proj1/enigma/Machine.java:113-121 | position i of the doubly enciphered message is the original character |
| Machines.EncipherRoundTrip | proj1/enigma/Machine.java:113-121 | enciphering the ciphertext from the same start settings gives the plaintext back |
| Machines.Machine.ConvertMessage | proj1/enigma/Machine.java:113-121 | strips whitespace; if every character is in the alphabet, returns `Encipher` of the stripped message (same length, i-th output is the i-th conversion) with the settings after one stepping per character; else fails, with the settings after one stepping per character before the first outside one |
| Machines.Machine.ConvertNext | proj1/enigma/Machine.java:116-119 | one turn of the message loop extends the output by the next character's image and the settings by one stepping |
| Machines.Machine.ConvertInto | proj1/enigma/Machine.java:117-118 | converting one index steps the rotors once and stores the image in the given position, leaving the rest of the array as it was |

## Left out

- Error messages are not modelled. Each exception is an `Error` value that names the check that fired, returned as a `Failure`/`Fail` result instead of being thrown.
- Rotor.java and Alphabet.java are not part of this model. Only the behaviour the core relies on is modelled (see above), and the rotor kinds are a tag (`Reflector`, `Fixed`, `Moving(notches)`).
- Calls into the unseen Alphabet.java are given an explicit error path, because what it does is not known:
  - a character outside the alphabet makes `PermuteChar`, `InvertChar` and `ConvertMessage` fail with `NotInAlphabet`;
  - `InvertChar` also fails with `NotInAlphabet` for an alphabet character whose reverse lookup finds no entry, where the source would call `toChar(-1)`;
  - a cycle character outside the alphabet makes `AddCycle` return `false`, and `NewPermutation` and `FromCycles` then give `Failure(NotInAlphabet)`.
  `SetRotors` failing with `SettingNotInAlphabet` is not one of these: it is the source's own check.
- Integer width: settings and indices are unbounded integers. Alphabets of 2^31 characters or more, where `setting + 1` would wrap, are not modelled.
- `String.split(" ")` drops trailing empty tokens; the model keeps them. An empty token adds nothing to a permutation, so the table is the same.
- The dead branch `cycle.length() < 1` inside the `addCycle` loop is not modelled: the loop only runs for non-empty cycles.
- The unused `size` field of Permutation and the unused `pBoard` field of Machine are not modelled.
- Machines.Machine.Convert: requires `0 < pawls`. With no pawls the source writes `notch[-1]` and crashes, although its constructor accepts that value.
- Machines.Machine.Convert: requires a set plugboard and a fully loaded slot array (`Loaded`: `numRotors` distinct, non-null rotors over the machine's alphabet, correctly placed). The source crashes on a null plugboard or slot and does not check the other conditions.
- Machines.Machine.ConvertMessage: also requires the plugboard to be a bijection, so that each image is an alphabet index.
- Machines.Machine.SetRotors: requires `Loaded()`, like `Convert` and `ConvertMessage`. So after an insertion whose names list has a length other than `numRotors`, that leaves a slot empty, or that repeats a rotor, none of the three is modelled. The source's `setRotors` compares only against `insertedRotors.length - 1`, which is `numRotors - 1` once loaded, and it accepts repeated rotors; it would go on with aliased or missing slots.
- Machines.Machine.InsertRotors: on failure the model states only that the machine is not loaded. It does not say which slots were written before the throw.
- Machines.Machine.Convert is split into `MarkSteps`, `AdvanceMarked` (with `AdvanceSlot` for one slot) and `Route` (with `PassForward` and `PassBackward` for its two loops). Together these are the same statements in the same order. The `letter` variable of the source is computed and never used.
- Machines.Machine.ConvertMessage: its loop body is split into `ConvertNext` and `ConvertInto`. The loop bodies of `MarkSteps`, `AdvanceMarked`, `SetRotors` and `AddCycle` are likewise the helper methods `MarkNext`, `AdvanceNext`, `SetSlot` and `SetSuccessor`, and the final mark of `MarkSteps` is `MarkFastest`, with the same statements in the same order.
- The claim that no rotor moves more than one step per character is not a separate lemma. `StepAt` states that each slot either advances by one or stays.
- The machine's `numRotors()` and `numPawls()` accessors are the constants `numRotors` and `pawls`, and `rotates`/`reflecting` are the predicates `Rotates`/`Reflecting` of `Rotor`.
- Configuration-file parsing, command-line handling and output formatting are not part of this model.
