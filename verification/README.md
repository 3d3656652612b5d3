# Mastermind game logic in Dafny

A model of the single-number Mastermind game in `mastermind.cpp`. One side
holds a secret of D decimal digits (1 <= D <= 9), all distinct, and no
leading zero. It is either drawn at random (`-r <D>`) or given on the
command line (`-u <secret>`). The player types guesses. Each guess that
does not win gets two counts: digits in the right place (`exact`), and
ordered pairs of different positions holding the same digit (`value`). The
session ends with FOUND, with FAILED at the 100-guess limit, or with a fatal
error code: E0 for the command line, E1 for a badly shaped guess, E2 for a
malformed or negative token.

The model uses pure functions over `nat`, `string` and digit sequences
(`seq<nat>`, least significant digit first). It has these modules:

- `Wrappers` (wrappers.dfy): `Option` and `Result`, so that a fatal error
  is a returned value instead of `exit(1)`.
- `Digits` (digits.dfy): `Pow10`, `digitOfNum`, the digit decomposition
  and `isUnique`. It also has the loops of `isUnique` as methods.
- `Text` (text.dfy): `isString` and `strToInt`. Their partner is
  `ToDecimal`, the canonical decimal spelling of a number, and round-trip
  lemmas connect them.
- `Feedback` (feedback.dfy): `hint`, as the counts `Exact` and `Value`
  built from the source's nested loops. It proves symmetry, the self-match
  result, the bound and the worked example. `HintScan` holds the loops
  themselves.
- `Validation` (validation.dfy): `error0`, `error1`, and the part of
  `main` that turns an accepted command line into a configuration.
- `Secret` (secret.dfy): `randomNum`, with the draw of `rand()` as a
  parameter, and the rejection loop of `main` over a finite sequence of
  draws.
- `Game` (game.dfy): the loop of `guess` as a fold (`Loop`) over a
  sequence of input events. `Judge` classifies one read: rejected with a
  code, the win, or a miss carrying its hint. `Decided` describes the same
  session by position over the reads' verdicts: the session is decided by
  the first read that is not a missing guess, or by the 100th read if that
  comes first. `LoopIsDecided` proves the two equal. `Run` models `main`.

Standard input is a finite sequence of `Event`s. `Malformed` is a token
whose next character is neither a digit nor a newline. `Num(n)` is a token
read as the integer n. When the sequence runs out, the source's `cin`
fails and `getchar()` returns EOF, which the E2 test rejects. So the end of
input ends the session with E2.

`End` maps to exit status as follows: `Found` exits with 0. `Failed` and
every `Fatal` code exit with 1.

The model keeps three behaviours of the code that a reader of the game's
rules might not expect:

- A 100th guess equal to the secret ends in FAILED, not FOUND. The counter
  reaches 100 and is tested before the loop condition.
- `-r` accepts a digit count written with leading zeros (`-r 05`).
- `value` does not subtract the exact matches.

## Model

| member | source | states |
|---|---|---|
| Digits.DigitOfNum | mastermind.cpp:215-225 | the count is 0 exactly for 0; for n > 0 it is a c with 10^(c-1) <= n < 10^c |
| Digits.DigitOfNumIsUnique | mastermind.cpp:215-225 | that c is the only exponent with 10^(c-1) <= n < 10^c |
| Digits.DigitsOf | mastermind.cpp:252-256 | the decomposition has exactly `digit` entries, each a decimal digit 0..9 |
| Digits.DigitsOfPositional | mastermind.cpp:252-256 | entry i of the decomposition is the i-th decimal digit of n, n / 10^i mod 10 |
| Digits.FillDigits | mastermind.cpp:252-256 | the `num % 10`, `num / 10` loop fills the array with the `digit` lowest digits, least significant first |
| Digits.IsUniquePositional | mastermind.cpp:246-272 | `isUnique(num, d)` holds iff the decimal digits of num at positions 0..d-1 are pairwise different |
| Digits.IsUniqueScan | mastermind.cpp:246-272 | the fill loop plus the compare-with-every-later-entry loop with early `return false` decides exactly that distinctness |
| Text.StrToInt | mastermind.cpp:363-373 | on an all-digit string the value lies in [0, 10^len); with a non-zero first digit it is at least 10^(len-1) |
| Text.StrToIntOfToDecimal | mastermind.cpp:363-373 | `strToInt` reads back the canonical decimal spelling of every number |
| Text.ToDecimalOfStrToInt | mastermind.cpp:175-184 | a non-empty string that passes `isString` and has no leading '0' is the canonical spelling of its `strToInt` value |
| Text.ToDecimalLength | mastermind.cpp:215-225 | the canonical spelling of a positive number is `digitOfNum` characters long |
| Text.ShortDigitStringFits | mastermind.cpp:363-373 | a digit string of at most nine characters is evaluated without leaving the 32-bit `int` range |
| Text.DigitOfNumOfStrToInt | mastermind.cpp:87-88 | for such a string, `digitOfNum(strToInt(s))` equals its length |
| Validation.Error0RandomIff | mastermind.cpp:103-136 | with flag `-r`, `error0` passes iff argc is 3 and the companion is zero or more '0's followed by one digit 1..9 |
| Validation.Error0FixedIff | mastermind.cpp:138-166 | with flag `-u`, `error0` passes iff argc is 3 and the companion is the canonical spelling of a number with 1..9 digits, all distinct |
| Validation.Error0Rejects | mastermind.cpp:103-167 | `-r 0`, `-u 01`, `-x 5` and an extra argument are rejected with E0 |
| Validation.Error0RejectsTen | mastermind.cpp:131-135 | `-r 10` is rejected with E0 |
| Validation.Error0RejectsRepeat | mastermind.cpp:161-165 | `-u 112` is rejected with E0 for its repeated digit |
| Validation.Error0AcceptsRandom | mastermind.cpp:120-136 | `-r 4` passes |
| Validation.Error0AcceptsFixed | mastermind.cpp:138-166 | `-u 1234` passes |
| Validation.Setup | mastermind.cpp:62-91 | a rejected command line yields E0 only; a random configuration comes exactly from `-r`, with the companion's `strToInt` value, in 1..9, as the digit count; `-u` yields a legal secret whose digit count equals the companion's length and whose spelling is the companion |
| Validation.Error1Iff | mastermind.cpp:192-208 | `error1` passes a guess iff it lies in [10^(D-1), 10^D) and its D digits are distinct; 0 never passes |
| Secret.RandomNum | mastermind.cpp:232-239 | for every draw and 1 <= D <= 9 the candidate lies in [10^(D-1), 10^D - 1] and has exactly D digits |
| Secret.GenerateSecret | mastermind.cpp:74-77 | the loop returns the candidate of the first draw with distinct digits, after rejecting all earlier ones; with no such draw it reports that every draw was rejected |
| Feedback.Hint | mastermind.cpp:324-356 | the exact count never exceeds D |
| Feedback.HintSymmetric | mastermind.cpp:342-352 | both counts are unchanged when secret and guess trade places |
| Feedback.HintSelf | mastermind.cpp:342-352 | a number with distinct digits scored against itself gives (D, 0) |
| Feedback.ExactPlusValue | mastermind.cpp:342-352 | without subtraction, exact + value counts every position pair (i, k) with equal digits |
| Feedback.HintBound | mastermind.cpp:342-352 | when either number has distinct digits, exact + value <= D |
| Feedback.HintExample | mastermind.cpp:324-356 | secret 1234 against guess 1243 over 4 digits gives (2, 2) |
| Feedback.HintScan | mastermind.cpp:324-356 | the digit-array loops and the nested counting loops compute the same two counts |
| Game.Loop | mastermind.cpp:282-317 | a FOUND count lies strictly between the entry count and 100; at most 100 minus the entry count hints are printed |
| Game.Judge | mastermind.cpp:293-305 | a read is E2 iff it is malformed or negative, E1 iff it is a non-negative wrong-shaped guess, a win iff it is an accepted guess equal to the secret, and otherwise a miss that carries the guess's hint; E2 is tested first |
| Game.LoopIsDecided | mastermind.cpp:282-317 | the iteration agrees on every input with the positional description of the session over the verdicts of its reads |
| Game.GuessFound | mastermind.cpp:303-316 | FOUND in k steps iff k <= 99, the first k-1 reads are missing guesses and read k is the secret; k-1 hints are printed |
| Game.GuessFailed | mastermind.cpp:307-312 | FAILED iff the first 99 reads are missing guesses and the 100th is any accepted guess |
| Game.HundredthGuessFails | mastermind.cpp:307-314 | a 100th guess equal to the secret still ends in FAILED, after 99 hints |
| Game.GuessFatal | mastermind.cpp:293-301 | the session ends with a code iff the first read that is not a miss is rejected with that code, or is the end of input (E2), and lies within the first 100 reads |
| Game.GuessHints | mastermind.cpp:303-305 | hint i belongs to read i, which is an accepted guess different from the secret, and is its feedback |
| Game.GuessExamples | mastermind.cpp:289-316 | against 1234: guessing 1234 first is FOUND in 1 step with no hint; 12 is E1; -5 and a malformed token are E2 |
| Game.Run | mastermind.cpp:62-91 | a rejected command line ends with E0 and no hints; `-u` plays against the number spelled by the companion; for `-r` with D = `strToInt` of the companion, the run stops without a game iff no draw's candidate has D distinct digits, and otherwise plays against the candidate of the first draw that has them |

## Left out

- Banner and help text (mastermind.cpp:47-54) and the text of every
  printed line are not modelled. The model returns the hint counts and the
  ending as values instead of printing them.
- The lexing done by `cin >> guessNum` and `getchar()` is not modelled.
  Each read is an abstract `Event`. This includes the value stored by a
  failed or out-of-range `cin` read.
- `rand()` and `srand(time(NULL))` are not modelled. Each draw is a
  parameter. Uniformity and the modulo bias of `rand() % range` are not
  stated. The draw is not bounded by `RAND_MAX`.
- `pow(10, d)` in floating point is replaced by the exact integer `Pow10`,
  which matches it for the exponents used (d <= 9).
- `exit(1)` is not modelled as process termination. It becomes a `Fatal`
  or `Failed` ending, or an E0 `Failure`.
- Undefined or throwing behaviour is excluded by `Error0Defined`. This
  covers three cases: reading `argv[1]`/`argv[2]` when argc < 3; signed
  overflow while `strToInt` evaluates the companion; and `arg2.at(0)` on an
  empty `-u` companion, which throws.
- Characters are Dafny `char`s, not C++ `char` bytes. This only affects the
  value `strToInt` computes for non-digit strings, which `error0` rejects
  anyway.
- The digit functions take `nat`. Negative numbers never reach them with
  an effect: guesses are checked non-negative first, and secrets are
  positive. In the `-u` branch of `error0`, the source computes
  `digitOfNum(num)` before `isString`, possibly on a negative value, and
  uses it only after `isString` passes. The model computes it at the point
  of use.
- Secret.GenerateSecret: the source's loop draws without bound. The model
  stops when its finite sequence of draws runs out and reports `None`.
