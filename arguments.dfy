/** The process-wide argument store: `ParseParameters` turns an argument
    vector into a map from flag key to value, and `GetArg`/`GetBoolArg`
    read it back with a caller default.

    A token `-name=value` stores `value` under `-name`; `-name` alone stores
    the empty string; `--name` is read as `-name`; and `-noname` stores the
    inverse boolean under `-name`, unless some token sets `-name` itself. */
module Arguments {
  import opened Conversions
  import opened Tokenizer

  datatype Option<T> = None | Some(value: T)

  /** One parsed flag token. */
  datatype Arg = Arg(key: string, value: string)

  /** The dummy executable name the test helper puts in front. */
  const ProgramName: string := "testbitcoin"

  /** A stored key: it starts with a dash and holds no `=`. */
  predicate IsFlagKey(k: string) {
    |k| >= 1 && k[0] == '-' && forall i :: 0 <= i < |k| ==> k[i] != '='
  }

  /** A key as written with a single leading dash. */
  predicate IsCanonicalKey(k: string) {
    IsFlagKey(k) && (|k| < 2 || k[1] != '-')
  }

  /** The position of the first `=` in `s`, or `|s|` if there is none. */
  function IndexOfEquals(s: string): (i: nat)
    ensures i <= |s|
  {
    if s == [] then 0 else if s[0] == '=' then 0 else 1 + IndexOfEquals(s[1..])
  }

  /** `IndexOfEquals` finds the first `=`: there is one at that position,
      unless it is `|s|`, and none before it. */
  lemma {:induction false} IndexOfEqualsIsFirst(s: string)
    ensures IndexOfEquals(s) < |s| ==> s[IndexOfEquals(s)] == '='
    ensures forall j :: 0 <= j < IndexOfEquals(s) ==> s[j] != '='
  {
    if s != [] && s[0] != '=' {
      IndexOfEqualsIsFirst(s[1..]);
    }
  }

  lemma {:induction false} IndexOfEqualsAfterKey(k: string, rest: string)
    requires forall i :: 0 <= i < |k| ==> k[i] != '='
    requires rest != [] && rest[0] == '='
    ensures IndexOfEquals(k + rest) == |k|
  {
    if k != [] {
      assert (k + rest)[1..] == k[1..] + rest;
      IndexOfEqualsAfterKey(k[1..], rest);
    } else {
      assert k + rest == rest;
    }
  }

  lemma {:induction false} IndexOfEqualsNone(k: string)
    requires forall i :: 0 <= i < |k| ==> k[i] != '='
    ensures IndexOfEquals(k) == |k|
  {
    if k != [] {
      IndexOfEqualsNone(k[1..]);
    }
  }

  /** A token read as a flag: a token that does not start with a dash is
      not a flag; one leading dash of a double dash is dropped; the key is
      the text before the first `=` and the value the text after it, or
      the empty string when there is no `=`. */
  function ParseToken(tok: string): (r: Option<Arg>)
    ensures r.Some? <==> tok != [] && tok[0] == '-'
    ensures r.Some? ==> |r.value.key| >= 1 && r.value.key[0] == '-'
  {
    if tok == [] || tok[0] != '-' then None
    else
      var name := if |tok| >= 2 && tok[1] == '-' then tok[1..] else tok;
      var i := IndexOfEquals(name);
      Some(Arg(name[..i], if i < |name| then name[i + 1..] else ""))
  }

  /** The key of a flag token is a flag key, and key and value give the
      token back: after dropping one dash of a double dash, the token is
      the bare key, or the key, `=` and the value. */
  lemma ParseTokenKey(tok: string)
    requires ParseToken(tok).Some?
    ensures IsFlagKey(ParseToken(tok).value.key)
    ensures var name := if |tok| >= 2 && tok[1] == '-' then tok[1..] else tok;
      var a := ParseToken(tok).value;
      (name == a.key && a.value == "") || name == a.key + "=" + a.value
  {
    var name := if |tok| >= 2 && tok[1] == '-' then tok[1..] else tok;
    IndexOfEqualsIsFirst(name);
    var i := IndexOfEquals(name);
    if i < |name| {
      assert name == name[..i] + "=" + name[i + 1..];
    } else {
      assert name[..i] == name;
    }
  }

  /** A key of the form `-no<rest>` with a nonempty `<rest>`. */
  predicate IsNegation(key: string) {
    |key| > 3 && key[0] == '-' && key[1] == 'n' && key[2] == 'o'
  }

  /** The key a negation `-no<rest>` stands for: `-<rest>`. */
  function Positive(key: string): (p: string)
    requires IsNegation(key)
    ensures |p| >= 2 && p[0] == '-' && "-no" + p[1..] == key
  {
    "-" + key[3..]
  }

  /** `-no` in front of any nonempty name is a negation, and it stands for
      the name with a single dash. */
  lemma NegationOfName(r: string)
    requires r != []
    ensures IsNegation("-no" + r) && Positive("-no" + r) == "-" + r
  {
    assert ("-no" + r)[3..] == r;
  }

  /** The map after one more token: a negation first fills in its positive
      key if that key is still absent, then the token's own key is set. */
  function Step(m: map<string, string>, tok: string): (r: map<string, string>)
    ensures ParseToken(tok).None? ==> r == m
    ensures ParseToken(tok).Some? ==>
      ParseToken(tok).value.key in r && r[ParseToken(tok).value.key] == ParseToken(tok).value.value
  {
    match ParseToken(tok)
    case None => m
    case Some(a) =>
      var derived :=
        if IsNegation(a.key) && Positive(a.key) !in m
        then m[Positive(a.key) := BoolText(!InterpretBool(a.value))]
        else m;
      derived[a.key := a.value]
  }

  /** The map built from a sequence of tokens, starting from empty. */
  function ParseTokens(ts: seq<string>): map<string, string>
    decreases |ts|
  {
    if ts == [] then map[] else Step(ParseTokens(ts[..|ts| - 1]), ts[|ts| - 1])
  }

  /** Every stored key is a flag key: it starts with a dash and holds no `=`. */
  lemma {:induction false} KeysAreFlagKeys(ts: seq<string>)
    ensures forall k :: k in ParseTokens(ts) ==> IsFlagKey(k)
    decreases |ts|
  {
    if ts != [] {
      KeysAreFlagKeys(ts[..|ts| - 1]);
      var a := ParseToken(ts[|ts| - 1]);
      if a.Some? {
        ParseTokenKey(ts[|ts| - 1]);
        if IsNegation(a.value.key) {
          PositiveIsFlagKey(a.value.key);
        }
      }
    }
  }

  lemma PositiveIsFlagKey(key: string)
    requires IsFlagKey(key) && IsNegation(key)
    ensures IsFlagKey(Positive(key))
  {
    var p := Positive(key);
    forall i | 0 <= i < |p| ensures p[i] != '=' {
      if i > 0 {
        assert p[i] == key[i + 2];
      }
    }
  }

  /** A token whose key has a single leading dash and, if it is a
      negation, a name that does not start with a dash. */
  predicate IsCanonicalToken(tok: string) {
    ParseToken(tok).Some? ==>
      IsCanonicalKey(ParseToken(tok).value.key)
      && (IsNegation(ParseToken(tok).value.key) ==> ParseToken(tok).value.key[3] != '-')
  }

  /** For such tokens every stored key has exactly one leading dash. */
  lemma {:induction false} KeysAreCanonical(ts: seq<string>)
    requires forall i :: 0 <= i < |ts| ==> IsCanonicalToken(ts[i])
    ensures forall k :: k in ParseTokens(ts) ==> IsCanonicalKey(k)
    decreases |ts|
  {
    if ts != [] {
      KeysAreCanonical(ts[..|ts| - 1]);
      var a := ParseToken(ts[|ts| - 1]);
      if a.Some? && IsNegation(a.value.key) {
        assert IsCanonicalToken(ts[|ts| - 1]);
        PositiveIsFlagKey(a.value.key);
      }
    }
  }

  /** The map built from a full argument vector, whose first element is
      the program name and is never read. */
  function ParseArgv(argv: seq<string>): map<string, string> {
    if argv == [] then map[] else ParseTokens(argv[1..])
  }

  /** The map the test helper `ResetArgs` leaves behind. */
  function ResetArgsMap(strArg: string): map<string, string> {
    ParseArgv([ProgramName] + Split(strArg))
  }

  // ---------------------------------------------------------------------
  // A reference description of the parsed map, key by key.

  function Get(m: map<string, string>, k: string): Option<string> {
    if k in m then Some(m[k]) else None
  }

  /** `tok` sets `k` itself. */
  predicate IsLiteralFor(tok: string, k: string) {
    ParseToken(tok).Some? && ParseToken(tok).value.key == k
  }

  /** `tok` is a negation whose positive key is `k`. */
  predicate IsNegationFor(tok: string, k: string) {
    ParseToken(tok).Some? && IsNegation(ParseToken(tok).value.key)
    && Positive(ParseToken(tok).value.key) == k
  }

  /** The value of the last token that sets `k` itself. */
  function LastLiteral(ts: seq<string>, k: string): Option<string>
    decreases |ts|
  {
    if ts == [] then None
    else if IsLiteralFor(ts[|ts| - 1], k) then Some(ParseToken(ts[|ts| - 1]).value.value)
    else LastLiteral(ts[..|ts| - 1], k)
  }

  /** The value of the first negation token for `k`. */
  function FirstNegation(ts: seq<string>, k: string): Option<string>
    decreases |ts|
  {
    if ts == [] then None
    else
      var earlier := FirstNegation(ts[..|ts| - 1], k);
      if earlier.Some? then earlier
      else if IsNegationFor(ts[|ts| - 1], k) then Some(ParseToken(ts[|ts| - 1]).value.value)
      else None
  }

  /** What a key should hold after parsing `ts`: the last literal value if
      there is one, otherwise the inverse of the first negation, otherwise
      nothing. */
  function Expected(ts: seq<string>, k: string): Option<string> {
    match LastLiteral(ts, k)
    case Some(v) => Some(v)
    case None =>
      match FirstNegation(ts, k)
      case Some(v) => Some(BoolText(!InterpretBool(v)))
      case None => None
  }

  /** The parsed map is exactly the reference description: a key is
      present iff some token sets it or negates it, and its value is the
      one `Expected` names, whatever the order of the tokens. */
  lemma {:induction false} ParseTokensMeaning(ts: seq<string>, k: string)
    ensures Get(ParseTokens(ts), k) == Expected(ts, k)
    decreases |ts|
  {
    if ts != [] {
      ParseTokensMeaning(ts[..|ts| - 1], k);
    }
  }

  // ---------------------------------------------------------------------
  // Accessors.

  /** String lookup: the stored value verbatim, or the default. */
  function GetArg(m: map<string, string>, key: string, default: string): (r: string)
    ensures key in m ==> r == m[key]
    ensures key !in m ==> r == default
  {
    if key in m then m[key] else default
  }

  /** Integer lookup: the lenient parse of the stored value, or the default. */
  function GetIntArg(m: map<string, string>, key: string, default: int): (r: int)
    ensures key in m ==> r == ParseIntOrZero(m[key])
    ensures key !in m ==> r == default
  {
    if key in m then ParseIntOrZero(m[key]) else default
  }

  /** Boolean lookup with an explicit default. */
  function GetBoolArg(m: map<string, string>, key: string, default: bool): (r: bool)
    ensures key in m ==> r == InterpretBool(m[key])
    ensures key !in m ==> r == default
  {
    if key in m then InterpretBool(m[key]) else default
  }

  /** Boolean lookup whose default is false. */
  function GetBoolArgOrFalse(m: map<string, string>, key: string): (r: bool)
    ensures key in m ==> r == InterpretBool(m[key])
    ensures key !in m ==> !r
  {
    GetBoolArg(m, key, false)
  }

  // ---------------------------------------------------------------------
  // Properties of parse-then-lookup.

  /** A key that no token sets or negates reads as the caller default in
      all three forms. */
  lemma {:induction false} AbsentKeyGivesDefault(ts: seq<string>, k: string)
    requires forall i :: 0 <= i < |ts| ==> !IsLiteralFor(ts[i], k) && !IsNegationFor(ts[i], k)
    ensures k !in ParseTokens(ts)
    ensures forall d :: GetArg(ParseTokens(ts), k, d) == d
    ensures forall d :: GetIntArg(ParseTokens(ts), k, d) == d
    ensures forall d :: GetBoolArg(ParseTokens(ts), k, d) == d
  {
    NoneMentionedMeansAbsent(ts, k);
    NotMentioned(ts, k);
  }

  /** With neither a literal nor a negation for `k`, the key is absent. */
  lemma {:induction false} NotMentioned(ts: seq<string>, k: string)
    requires LastLiteral(ts, k).None? && FirstNegation(ts, k).None?
    ensures k !in ParseTokens(ts)
    ensures forall d :: GetArg(ParseTokens(ts), k, d) == d
    ensures forall d :: GetIntArg(ParseTokens(ts), k, d) == d
    ensures forall d :: GetBoolArg(ParseTokens(ts), k, d) == d
  {
    ParseTokensMeaning(ts, k);
  }

  lemma {:induction false} NoneMentionedMeansAbsent(ts: seq<string>, k: string)
    requires forall i :: 0 <= i < |ts| ==> !IsLiteralFor(ts[i], k) && !IsNegationFor(ts[i], k)
    ensures LastLiteral(ts, k).None? && FirstNegation(ts, k).None?
    decreases |ts|
  {
    if ts != [] {
      NoneMentionedMeansAbsent(ts[..|ts| - 1], k);
    }
  }

  /** An explicit key beats its negation: when some token sets `k`, the
      value of the last such token is what every accessor reads, wherever
      negation tokens for `k` stand. */
  lemma {:induction false} ExplicitKeyWins(ts: seq<string>, k: string, v: string)
    requires LastLiteral(ts, k) == Some(v)
    ensures k in ParseTokens(ts) && ParseTokens(ts)[k] == v
    ensures forall d :: GetArg(ParseTokens(ts), k, d) == v
    ensures forall d :: GetIntArg(ParseTokens(ts), k, d) == ParseIntOrZero(v)
    ensures forall d :: GetBoolArg(ParseTokens(ts), k, d) == InterpretBool(v)
  {
    ParseTokensMeaning(ts, k);
  }

  /** Without a literal token, the first negation decides: the positive
      key holds "0" or "1", the inverse of the negation's boolean value. */
  lemma NegationWithoutLiteral(ts: seq<string>, k: string, v: string)
    requires LastLiteral(ts, k).None? && FirstNegation(ts, k) == Some(v)
    ensures k in ParseTokens(ts) && ParseTokens(ts)[k] == BoolText(!InterpretBool(v))
    ensures forall d :: GetBoolArg(ParseTokens(ts), k, d) == !InterpretBool(v)
  {
    ParseTokensMeaning(ts, k);
    InterpretBoolText(!InterpretBool(v));
  }

  /** A flag given without a value, or with an empty one, is present with
      the empty value: the string and integer defaults are not used and
      the boolean reads true. */
  lemma FlagWithoutValue(ts: seq<string>, k: string)
    requires LastLiteral(ts, k) == Some("")
    ensures forall d :: GetArg(ParseTokens(ts), k, d) == ""
    ensures forall d :: GetIntArg(ParseTokens(ts), k, d) == 0
    ensures forall d :: GetBoolArg(ParseTokens(ts), k, d)
  {
    ExplicitKeyWins(ts, k, "");
  }

  /** The reference description of a single token. */
  lemma OneToken(t: string, k: string)
    ensures LastLiteral([t], k) ==
      if IsLiteralFor(t, k) then Some(ParseToken(t).value.value) else None
    ensures FirstNegation([t], k) ==
      if IsNegationFor(t, k) then Some(ParseToken(t).value.value) else None
  {
    assert [t][..0] == [];
  }

  /** The reference description of two tokens: the later literal and the
      earlier negation count. */
  lemma TwoTokens(a: string, b: string, k: string)
    ensures LastLiteral([a, b], k) ==
      if IsLiteralFor(b, k) then Some(ParseToken(b).value.value)
      else if IsLiteralFor(a, k) then Some(ParseToken(a).value.value)
      else None
    ensures FirstNegation([a, b], k) ==
      if IsNegationFor(a, k) then Some(ParseToken(a).value.value)
      else if IsNegationFor(b, k) then Some(ParseToken(b).value.value)
      else None
  {
    assert [a, b][..1] == [a];
    OneToken(a, k);
  }

  /** Two tokens, one setting `k` to `v` and one negating `k`: in either
      order the map holds `v` at `k`. */
  lemma ExplicitBeatsNegationInEitherOrder(lit: string, neg: string, k: string, v: string)
    requires ParseToken(lit) == Some(Arg(k, v))
    requires IsNegationFor(neg, k)
    ensures k in ParseTokens([lit, neg]) && ParseTokens([lit, neg])[k] == v
    ensures k in ParseTokens([neg, lit]) && ParseTokens([neg, lit])[k] == v
  {
    TwoTokens(lit, neg, k);
    TwoTokens(neg, lit, k);
    ExplicitKeyWins([lit, neg], k, v);
    ExplicitKeyWins([neg, lit], k, v);
  }

  /** On a present key the boolean default plays no part. */
  lemma GetBoolArgIgnoresDefault(m: map<string, string>, k: string)
    requires k in m
    ensures GetBoolArg(m, k, true) == GetBoolArg(m, k, false) == GetBoolArgOrFalse(m, k)
  {
  }

  /** `ParseTokens` looks at a token only through `ParseToken`, so tokens
      that parse alike can replace each other. */
  lemma {:induction false} ParseTokensRespectsParseToken(a: seq<string>, b: seq<string>)
    requires |a| == |b|
    requires forall i :: 0 <= i < |a| ==> ParseToken(a[i]) == ParseToken(b[i])
    ensures ParseTokens(a) == ParseTokens(b)
    decreases |a|
  {
    if a != [] {
      ParseTokensRespectsParseToken(a[..|a| - 1], b[..|b| - 1]);
    }
  }

  /** `--name[=value]` parses as `-name[=value]`. */
  lemma DoubleDashIsSingleDash(t: string)
    requires t != [] && t[0] == '-' && (|t| < 2 || t[1] != '-')
    ensures ParseToken("-" + t) == ParseToken(t)
  {
    assert ("-" + t)[1..] == t;
  }

  /** Writing a key and a value as `key=value` and parsing it gives them back. */
  lemma ParseFlagText(k: string, v: string)
    requires IsCanonicalKey(k)
    ensures ParseToken(k + "=" + v) == Some(Arg(k, v))
  {
    var tok := k + "=" + v;
    assert tok == k + ("=" + v);
    IndexOfEqualsAfterKey(k, "=" + v);
    assert tok[..|k|] == k;
    assert tok[|k| + 1..] == v;
  }

  /** A bare key parses as that key with the empty value. */
  lemma ParseBareFlag(k: string)
    requires IsCanonicalKey(k)
    ensures ParseToken(k) == Some(Arg(k, ""))
  {
    IndexOfEqualsNone(k);
    assert k[..|k|] == k;
  }

  /** The program name is never read as a flag: the first element of the
      vector has no effect on the map. */
  lemma ProgramNameIgnored(p: string, q: string, rest: seq<string>)
    ensures ParseArgv([p] + rest) == ParseArgv([q] + rest)
    ensures ProgramName !in ParseArgv([p] + rest)
  {
    KeysAreFlagKeys(rest);
    assert ([p] + rest)[1..] == rest;
    assert ([q] + rest)[1..] == rest;
  }

  /** Resetting with `strArg` made of nonempty whitespace-free tokens
      joined by single spaces is parsing exactly those tokens. */
  lemma ResetArgsOfWords(strArg: string, ws: seq<string>)
    requires |ws| >= 1
    requires forall i :: 0 <= i < |ws| ==> ws[i] != [] && NoSpace(ws[i])
    requires strArg == Join(ws)
    ensures ResetArgsMap(strArg) == ParseTokens(ws)
  {
    SplitJoin(ws);
    ResetArgsIsParseTokens(strArg);
  }

  /** Resetting parses the tokens of the line; the program name in front
      is skipped. */
  lemma ResetArgsIsParseTokens(strArg: string)
    ensures ResetArgsMap(strArg) == ParseTokens(Split(strArg))
  {
    var argv := [ProgramName] + Split(strArg);
    assert argv[1..] == Split(strArg);
  }

  /** Resetting with the empty line clears every key. */
  lemma ResetArgsEmpty()
    ensures ResetArgsMap("") == map[]
  {
    SplitEmpty();
    assert ([ProgramName] + [""])[1..] == [""];
    assert [""][..0] == [];
  }

  /** One step on a flag token, written out. */
  lemma StepOfFlag(m: map<string, string>, tok: string, a: Arg)
    requires ParseToken(tok) == Some(a)
    ensures Step(m, tok) ==
      (if IsNegation(a.key) && Positive(a.key) !in m
       then m[Positive(a.key) := BoolText(!InterpretBool(a.value))]
       else m)[a.key := a.value]
  {
  }

  lemma StepOfPrefix(argv: seq<string>, i: nat)
    requires 1 <= i < |argv|
    ensures ParseTokens(argv[1..i + 1]) == Step(ParseTokens(argv[1..i]), argv[i])
  {
    var ts := argv[1..i + 1];
    assert ts[..|ts| - 1] == argv[1..i];
    assert ts[|ts| - 1] == argv[i];
  }

  // ---------------------------------------------------------------------
  // The store itself.

  /** The process-wide argument map, replaced by every parse. */
  class ArgStore {
    var args: map<string, string>

    constructor ()
      ensures args == map[]
    {
      args := map[];
    }

    /** Clears the map, then reads the tokens after the program name one
        by one. */
    method ParseParameters(argv: seq<string>)
      modifies this
      ensures args == ParseArgv(argv)
    {
      args := map[];
      if |argv| == 0 {
        return;
      }
      var i := 1;
      while i < |argv|
        invariant 1 <= i <= |argv|
        invariant args == ParseTokens(argv[1..i])
      {
        var parsed := ParseToken(argv[i]);
        StepOfPrefix(argv, i);
        if parsed.Some? {
          StepOfFlag(args, argv[i], parsed.value);
          var key, value := parsed.value.key, parsed.value.value;
          if IsNegation(key) && Positive(key) !in args {
            args := args[Positive(key) := BoolText(!InterpretBool(value))];
          }
          args := args[key := value];
        }
        i := i + 1;
      }
      assert argv[1..i] == argv[1..];
    }

    /** The test helper: split the line on whitespace, put the program
        name in front, and parse. */
    method ResetArgs(strArg: string)
      modifies this
      ensures args == ResetArgsMap(strArg)
    {
      var vecArg := Split(strArg);
      vecArg := [ProgramName] + vecArg;
      ParseParameters(vecArg);
    }
  }
}
