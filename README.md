# getarg: the command-line argument store, as its test suite fixes it

This project models the command-line argument store that the
`getarg_tests` suite of `src/test/getarg_tests.cpp` exercises, and proves
properties of it in Dafny. The store has three parts.

- `ParseParameters` turns an argument vector into a map from flag key to
  value. Element 0 (the program name) is skipped.
  - `-name=value` stores `value` under `-name`.
  - A bare `-name` stores the empty string.
  - `--name` is read as `-name`.
  - `-noname` stores the inverse boolean of its value under `-name`, but
    an explicit `-name` token wins, whichever comes first.
  - Every call replaces the whole map.
- `GetArg` reads the map back with a caller default. The string form
  returns the stored value verbatim. The integer form returns the lenient
  integer parse of it, so a non-number reads as 0.
- `GetBoolArg` reads the map back as a boolean. An empty value is true;
  any other value is true when its integer parse is nonzero. The caller
  default is used only for an absent key.

The suite's helper `ResetArgs` builds the argument vector and stores it
with `ParseParameters`. It splits a line on runs of whitespace, then puts
the dummy program name `testbitcoin` in front.

The project is laid out as follows.

- `conversions.dfy` (`Conversions`): the lenient integer parse
  `ParseIntOrZero`, the boolean reading `InterpretBool`, and the decimal
  spelling `NatToDecimal` used to state their round trip.
- `tokenizer.dfy` (`Tokenizer`): the whitespace split `Split`, proved
  against `JoinWith` (its inverse on well-formed token lists, whatever
  runs of whitespace separate the tokens) and against `RemoveSpaces` (it
  loses nothing but whitespace).
- `arguments.dfy` (`Arguments`): the token parser `ParseToken`, the map
  built token by token `ParseTokens`, and the accessors.
  - `Expected` is an independent reference description of the map, key
    by key: the last literal value, else the inverse of the first
    negation, else absent. `ParseTokensMeaning` proves that the parser
    agrees with it on every input.
  - The class `ArgStore` holds the map as a field. Its method
    `ParseParameters` is the parsing loop, proved against `ParseArgv`.
    Its method `ResetArgs` is the test helper.
- `getarg_tests.dfy` (`GetArgTests`): one lemma per `ResetArgs` line of
  the suite. Each states the lookups the suite checks. A boolean check
  made with both defaults is stated for every default. Each case is
  derived from the general lemmas of `Arguments`.

## Model

| member | source | states |
|---|---|---|
| Conversions.ParseIntOrZero | src/test/getarg_tests.cpp:128-130 | the empty value and a value starting with neither a digit nor a sign read as 0; an all-digit value reads as its decimal value |
| Conversions.InterpretBool | src/test/getarg_tests.cpp:28-49 | the boolean reading of a stored value: the empty value is true, any other value is true when its integer parse is nonzero; `InterpretBoolOfNumber` and `InterpretBoolText` state what it gives on decimal numbers and on "1"/"0" |
| Conversions.BoolText | src/test/getarg_tests.cpp:51-60 | a boolean the parser derives is stored as "1" or "0"; `InterpretBoolText` proves it reads back as that boolean |
| Conversions.ParseNatToDecimal | src/test/getarg_tests.cpp:124-126 | parsing the decimal spelling of any natural number gives that number back |
| Conversions.InterpretBoolOfNumber | src/test/getarg_tests.cpp:41-49 | a decimal number is true exactly when it is nonzero |
| Conversions.InterpretBoolText | src/test/getarg_tests.cpp:52-60 | the values "1" and "0" that a negation stores read back as true and false |
| Tokenizer.Split | src/test/getarg_tests.cpp:13 | every line gives at least one token; the split is specified by `SplitJoinWith`, `SplitLeadingRun`, `SplitTokens`, `SplitKeepsText` and `SplitEmpty` |
| Tokenizer.SplitJoinWith | src/test/getarg_tests.cpp:13 | for nonempty whitespace-free tokens separated by any nonempty runs of whitespace (several characters, tabs included), splitting gives exactly those tokens; a trailing run adds one empty last token |
| Tokenizer.SplitLeadingRun | src/test/getarg_tests.cpp:13 | a leading run of whitespace adds one empty first token in front of the tokens of the rest of the line |
| Tokenizer.SplitJoin | src/test/getarg_tests.cpp:13 | splitting nonempty whitespace-free tokens joined by single spaces gives exactly those tokens, in order; derived from `SplitJoinWith` |
| Tokenizer.JoinIsJoinWith | src/test/getarg_tests.cpp:13 | joining with single spaces is `JoinWith` with one-space separators |
| Tokenizer.SplitTokens | src/test/getarg_tests.cpp:13 | no token holds whitespace, and only the first and the last token can be empty |
| Tokenizer.SplitKeepsText | src/test/getarg_tests.cpp:13 | the tokens concatenated are the line with its whitespace removed |
| Tokenizer.SplitEmpty | src/test/getarg_tests.cpp:13 | the empty line splits into the single empty token |
| Arguments.ParseToken | src/test/getarg_tests.cpp:96-110 | a token is read as a flag exactly when it starts with a dash, and its key then starts with a dash; the key/value split is specified by `ParseFlagText`, `ParseBareFlag`, `DoubleDashIsSingleDash` and `ParseTokenKey` |
| Arguments.ParseTokenKey | src/test/getarg_tests.cpp:96-110 | the key of a flag token starts with a dash and holds no `=`; after one dash of a double dash is dropped, the token is the bare key with the empty value, or the key, `=` and the value |
| Arguments.IsNegation | src/test/getarg_tests.cpp:51-60 | a key negates another when it is `-no` followed by at least one more character; `NegationOfName` proves that `-no` in front of any nonempty name is a negation |
| Arguments.Positive | src/test/getarg_tests.cpp:51-60 | the key a negation stands for is a dash and a name, and `-no` in front of that name gives the negation back |
| Arguments.NegationOfName | src/test/getarg_tests.cpp:51-60 | for every nonempty name, `-no<name>` is a negation and stands for `-<name>` |
| Arguments.Step | src/test/getarg_tests.cpp:51-75 | a token that is not a flag leaves the map unchanged; after a flag token its own key holds its value; the negation rule (a negation fills in its positive key with the inverse boolean only when that key is still absent) is pinned by `ParseTokensMeaning`; `StepOfFlag` only unfolds one step for the loop of `ParseParameters` |
| Arguments.ParseTokens | src/test/getarg_tests.cpp:62-75 | the map built token by token from empty, specified key by key by `ParseTokensMeaning` |
| Arguments.ParseFlagText | src/test/getarg_tests.cpp:100-110 | a single-dash key and a value written as `key=value` parse back to that key and that value, the empty value included |
| Arguments.ParseBareFlag | src/test/getarg_tests.cpp:96-98 | a bare single-dash key parses as that key with the empty value |
| Arguments.DoubleDashIsSingleDash | src/test/getarg_tests.cpp:77-86 | a token with one more leading dash parses exactly as the single-dash token |
| Arguments.ParseTokensRespectsParseToken | src/test/getarg_tests.cpp:133-141 | tokens that parse alike give the same map, so a double-dash line builds the map of its single-dash spelling |
| Arguments.KeysAreFlagKeys | src/test/getarg_tests.cpp:28-39 | every stored key starts with a dash and holds no `=` |
| Arguments.KeysAreCanonical | src/test/getarg_tests.cpp:28-86 | when every flag token's key has one leading dash and no negation name starts with a dash, every stored key has exactly one leading dash |
| Arguments.ParseTokensMeaning | src/test/getarg_tests.cpp:51-75 | for every token list and key, the parsed map agrees with the reference description: last literal value, else the inverse of the first negation, else absent |
| Arguments.OneToken | src/test/getarg_tests.cpp:41-60 | the reference description of a single token: its value if it sets the key, its value as a negation if it negates it, else nothing |
| Arguments.TwoTokens | src/test/getarg_tests.cpp:62-75 | the reference description of two tokens: the later literal and the earlier negation decide |
| Arguments.AbsentKeyGivesDefault | src/test/getarg_tests.cpp:33-39 | a key that no token sets or negates is absent, and string, integer and boolean lookups return the caller default |
| Arguments.NotMentioned | src/test/getarg_tests.cpp:92-94 | with no literal and no negation for a key, every lookup returns the caller default |
| Arguments.ExplicitKeyWins | src/test/getarg_tests.cpp:104-110 | when a token sets the key, every lookup reads the last such value for every default, whatever negations are present |
| Arguments.NegationWithoutLiteral | src/test/getarg_tests.cpp:52-60 | without a literal, the first negation stores "1" or "0" and boolean lookup gives the inverse of its value for every default |
| Arguments.FlagWithoutValue | src/test/getarg_tests.cpp:96-102 | a flag with no value or an empty one is present: string lookup gives "", integer lookup 0 and boolean lookup true for every default |
| Arguments.ExplicitBeatsNegationInEitherOrder | src/test/getarg_tests.cpp:62-75 | a literal token and a negation of its key, in either order, leave the literal's value stored |
| Arguments.GetBoolArgIgnoresDefault | src/test/getarg_tests.cpp:28-31 | on a present key both defaults and the default-free form give the same answer |
| Arguments.GetArg | src/test/getarg_tests.cpp:92-110 | a present key gives its stored value verbatim; an absent key gives the default |
| Arguments.GetIntArg | src/test/getarg_tests.cpp:116-130 | a present key gives the lenient parse of its value; an absent key gives the default |
| Arguments.GetBoolArg | src/test/getarg_tests.cpp:28-39 | a present key gives the boolean reading of its value; an absent key gives the default |
| Arguments.GetBoolArgOrFalse | src/test/getarg_tests.cpp:33-34 | a present key gives the boolean reading of its value; an absent key gives false |
| Arguments.ParseArgv | src/test/getarg_tests.cpp:15-23 | the map of a vector is the map of its tokens after element 0; `ProgramNameIgnored` proves element 0 never matters |
| Arguments.ResetArgsMap | src/test/getarg_tests.cpp:9-24 | the map `ResetArgs` leaves; `ResetArgsIsParseTokens` proves it is the parse of the tokens of the line |
| Arguments.ProgramNameIgnored | src/test/getarg_tests.cpp:15-16 | the first element of the vector does not affect the map, and the program name is never stored |
| Arguments.ResetArgsIsParseTokens | src/test/getarg_tests.cpp:12-23 | resetting with a line parses exactly the tokens of the line |
| Arguments.ResetArgsOfWords | src/test/getarg_tests.cpp:9-24 | resetting with tokens joined by single spaces parses exactly those tokens |
| Arguments.ResetArgsEmpty | src/test/getarg_tests.cpp:92-94 | resetting with the empty line leaves the map empty |
| Arguments.ArgStore.ParseParameters | src/test/getarg_tests.cpp:23 | the new map is the one built token by token from element 1 on, whatever the old map was |
| Arguments.ArgStore.ResetArgs | src/test/getarg_tests.cpp:9-24 | the new map is the parse of the program name followed by the tokens of the line |
| GetArgTests.BoolArgBare | src/test/getarg_tests.cpp:28-39 | after `-KPX`: `-KPX` is true for every default; `-fo` and `-KPXo` are false without a default and give the default otherwise |
| GetArgTests.BoolArgZero | src/test/getarg_tests.cpp:41-44 | after `-KPX=0`: `-KPX` is false for every default |
| GetArgTests.BoolArgOne | src/test/getarg_tests.cpp:46-49 | after `-KPX=1`: `-KPX` is true for every default |
| GetArgTests.BoolArgNegated | src/test/getarg_tests.cpp:52-55 | after `-noKPX`: `-KPX` is false for every default |
| GetArgTests.BoolArgNegatedOne | src/test/getarg_tests.cpp:57-60 | after `-noKPX=1`: `-KPX` is false for every default |
| GetArgTests.BoolArgExplicitThenNegated | src/test/getarg_tests.cpp:62-65 | after `-KPX -noKPX`: `-KPX` is true for every default |
| GetArgTests.BoolArgExplicitOneNegatedOne | src/test/getarg_tests.cpp:67-70 | after `-KPX=1 -noKPX=1`: `-KPX` is true for every default |
| GetArgTests.BoolArgExplicitZeroNegatedZero | src/test/getarg_tests.cpp:72-75 | after `-KPX=0 -noKPX=0`: `-KPX` is false for every default |
| GetArgTests.BoolArgDoubleDashOne | src/test/getarg_tests.cpp:78-81 | after `--KPX=1`: `-KPX` is true for every default |
| GetArgTests.BoolArgDoubleDashNegatedOne | src/test/getarg_tests.cpp:83-86 | after `--noKPX=1`: `-KPX` is false for every default |
| GetArgTests.EmptyLine | src/test/getarg_tests.cpp:92-94 | after the empty line: string and integer lookups of `-KPX` give their defaults |
| GetArgTests.TwoBareFlags | src/test/getarg_tests.cpp:96-98 | after `-KPX -bar`: string lookup of `-KPX` gives "" and integer lookups of `-KPX` and `-bar` give 0, not the defaults |
| GetArgTests.StringArgEmptyValue | src/test/getarg_tests.cpp:100-102 | after `-KPX=`: string lookup gives "" for both defaults |
| GetArgTests.StringArgNumber | src/test/getarg_tests.cpp:104-106 | after `-KPX=11`: string lookup gives "11" for both defaults |
| GetArgTests.StringArgWord | src/test/getarg_tests.cpp:108-110 | after `-KPX=eleven`: string lookup gives "eleven" for both defaults |
| GetArgTests.IntArgNumbers | src/test/getarg_tests.cpp:124-126 | after `-KPX=11 -bar=12`: integer lookups give 11 and 12 |
| GetArgTests.IntArgNotANumber | src/test/getarg_tests.cpp:128-130 | after `-KPX=NaN -bar=NotANumber`: integer lookups give 0 despite nonzero defaults |
| GetArgTests.DoubleDashBare | src/test/getarg_tests.cpp:135-136 | after `--KPX`: `-KPX` is true |
| GetArgTests.DoubleDashValues | src/test/getarg_tests.cpp:138-140 | after `--KPX=verbose --bar=1`: string lookup of `-KPX` gives "verbose" and integer lookup of `-bar` gives 1 |
| GetArgTests.BoolArgNegatedZero | src/test/getarg_tests.cpp:155-158 | after `-noKPX=0`: `-KPX` is true for every default |
| GetArgTests.BoolArgExplicitThenDoubleDashNegated | src/test/getarg_tests.cpp:160-161 | after `-KPX --noKPX`: `-KPX` is true |
| GetArgTests.BoolArgNegatedThenExplicit | src/test/getarg_tests.cpp:163-164 | after `-noKPX -KPX`: `-KPX` is true |
| GetArgTests.ResetReplacesMap | src/test/getarg_tests.cpp:90-94 | on one store, `-KPX` is true after resetting with `-KPX`, and after then resetting with the empty line the string lookup of `-KPX` gives its default |

The `intarg` block at lines 116-122 and the `boolargno` cases at lines
145-153 repeat lines already stated above. `EmptyLine` also covers lines
116-118, `TwoBareFlags` lines 120-122, `BoolArgNegated` lines 145-148 and
`BoolArgNegatedOne` lines 150-153.

## Left out

- `util.cpp` is not part of this model. `ParseParameters`, `GetArg` and
  `GetBoolArg` are modelled from the behaviour the suite fixes. Where the
  suite is silent, the model makes the choices below.
- A token that does not start with a dash is skipped; parsing goes on
  with the next token. In the suite, the only such token is the empty
  token from `ResetArgs("")`, which stores nothing under either choice.
- One leading dash of a double dash is dropped, per token. So `---x`
  reads as `--x`, and a stored key can start with more than one dash.
  The negation rule is a second way to get such a key: `-no-x` and
  `--no-x` store `--x`, and `-no--x` stores `---x`. The invariant that
  every key has exactly one leading dash holds only for tokens without
  these spellings; `KeysAreCanonical` proves it for them.
- `-no` with nothing after it is an ordinary key, not a negation.
- The first `=` separates key and value; later `=` belong to the value.
- When several negations of one key appear and no literal sets it, the
  first negation decides the positive key. The negation key itself is
  stored like any other key and keeps the last value: after
  `-noKPX=0 -noKPX=1`, `-KPX` holds "1" and `-noKPX` holds "1".
- The integer parse accepts an optional sign followed by the longest run
  of decimal digits. It does not skip leading whitespace.
- Conversions.ParseIntOrZero: does not model the 64-bit range or
  overflow of the C++ integer parse, because integers here are unbounded.
- Whitespace is the classic-locale set: space, tab, newline, vertical
  tab, form feed and carriage return.
- A multi-valued map of repeated flags is not modelled; the suite does not
  observe one.
- The `std::string` to `const char*` conversion at
  src/test/getarg_tests.cpp:18-21 is left out. It is plumbing with no
  effect on the map: the model passes the strings themselves.
- The Boost.Test registration and check macros are left out. Each check
  is an `ensures` clause of a lemma instead.
- The single global store is modelled as one `ArgStore` object. Thread
  safety is not modelled, because the suite is single-threaded.
