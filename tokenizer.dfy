/** Splitting a command line on runs of whitespace, as the test helper
    `ResetArgs` does with `boost::split(..., is_space(), token_compress_on)`:
    every maximal run of whitespace separates two tokens, so a leading or a
    trailing run yields an empty first or last token and the empty string
    yields the single empty token. */
module Tokenizer {

  /** The characters of `isspace` in the classic locale. */
  predicate IsSpace(c: char) {
    c == ' ' || c == '\t' || c == '\n' || c == '\r' || c == '\U{B}' || c == '\U{C}'
  }

  predicate NoSpace(s: string) {
    forall i :: 0 <= i < |s| ==> !IsSpace(s[i])
  }

  /** The longest prefix of `s` without whitespace. */
  function Word(s: string): (w: string)
    ensures |w| <= |s|
    ensures |w| < |s| ==> IsSpace(s[|w|])
  {
    if s == [] || IsSpace(s[0]) then [] else [s[0]] + Word(s[1..])
  }

  /** The word is a whitespace-free prefix. */
  lemma {:induction false} WordIsPrefix(s: string)
    ensures Word(s) == s[..|Word(s)|] && NoSpace(Word(s))
  {
    if s != [] && !IsSpace(s[0]) {
      WordIsPrefix(s[1..]);
    }
  }

  /** `s` without its leading run of whitespace. */
  function SkipSpaces(s: string): (r: string)
    ensures |r| <= |s|
    ensures r != [] ==> !IsSpace(r[0])
    ensures s != [] && IsSpace(s[0]) ==> |r| < |s|
  {
    if s != [] && IsSpace(s[0]) then SkipSpaces(s[1..]) else s
  }

  /** The tokens of `s`, in order. */
  function Split(s: string): (ts: seq<string>)
    ensures |ts| >= 1
    decreases |s|
  {
    var w := Word(s);
    var rest := s[|w|..];
    if rest == [] then [w] else [w] + Split(SkipSpaces(rest))
  }

  /** No token holds whitespace, and only the first and the last token
      can be empty (from a leading or trailing run of whitespace). */
  lemma {:induction false} SplitTokens(s: string)
    ensures forall i :: 0 <= i < |Split(s)| ==> NoSpace(Split(s)[i])
    ensures forall i :: 0 < i < |Split(s)| - 1 ==> Split(s)[i] != []
    decreases |s|
  {
    var w := Word(s);
    WordIsPrefix(s);
    var rest := s[|w|..];
    if rest != [] {
      var r := SkipSpaces(rest);
      var tail := Split(r);
      SplitTokens(r);
      assert Split(s) == [w] + tail;
      if |tail| > 1 {
        assert r != [];
        assert Word(r) != [];
      }
    }
  }

  /** Tokens glued back together with single spaces (`JoinIsJoinWith`
      proves it is `JoinWith` with one-space separators). */
  function Join(ws: seq<string>): string
    requires |ws| >= 1
  {
    if |ws| == 1 then ws[0] else ws[0] + " " + Join(ws[1..])
  }

  /** The characters of `s` that are not whitespace. */
  function RemoveSpaces(s: string): (r: string)
    ensures NoSpace(r)
  {
    if s == [] then []
    else if IsSpace(s[0]) then RemoveSpaces(s[1..])
    else [s[0]] + RemoveSpaces(s[1..])
  }

  function Concat(ws: seq<string>): string {
    if ws == [] then [] else ws[0] + Concat(ws[1..])
  }

  lemma {:induction false} WordOfSeparated(w: string, rest: string)
    requires NoSpace(w)
    requires rest == [] || IsSpace(rest[0])
    ensures Word(w + rest) == w
  {
    if w != [] {
      assert (w + rest)[1..] == w[1..] + rest;
      WordOfSeparated(w[1..], rest);
    } else {
      assert w + rest == rest;
    }
  }

  /** Splitting tokens that were joined with single spaces gives the
      tokens back, provided each is nonempty and free of whitespace: the
      single-space case of `SplitJoinWith`. */
  lemma SplitJoin(ws: seq<string>)
    requires |ws| >= 1
    requires forall i :: 0 <= i < |ws| ==> ws[i] != [] && NoSpace(ws[i])
    ensures Split(Join(ws)) == ws
  {
    var seps := SingleSpaces(|ws| - 1);
    JoinIsJoinWith(ws);
    SplitJoinWith(ws, seps, "");
    assert JoinWith(ws, seps) + "" == JoinWith(ws, seps);
  }

  predicate AllSpace(s: string) {
    forall i :: 0 <= i < |s| ==> IsSpace(s[i])
  }

  /** Tokens glued together with the given separators, `seps[i]` between
      `ws[i]` and `ws[i + 1]`. */
  function JoinWith(ws: seq<string>, seps: seq<string>): string
    requires |ws| >= 1 && |seps| == |ws| - 1
  {
    if |ws| == 1 then ws[0] else ws[0] + seps[0] + JoinWith(ws[1..], seps[1..])
  }

  /** `n` separators of one space each. */
  function SingleSpaces(n: nat): (seps: seq<string>)
    ensures |seps| == n && forall i :: 0 <= i < n ==> seps[i] == " "
  {
    seq(n, _ => " ")
  }

  /** `Join` is `JoinWith` with single spaces. */
  lemma {:induction false} JoinIsJoinWith(ws: seq<string>)
    requires |ws| >= 1
    ensures Join(ws) == JoinWith(ws, SingleSpaces(|ws| - 1))
  {
    if |ws| > 1 {
      JoinIsJoinWith(ws[1..]);
      assert SingleSpaces(|ws| - 1)[1..] == SingleSpaces(|ws| - 2);
    }
  }

  /** Skipping a run of whitespace stops at the first other character. */
  lemma {:induction false} SkipRun(run: string, t: string)
    requires AllSpace(run)
    requires t == [] || !IsSpace(t[0])
    ensures SkipSpaces(run + t) == t
  {
    if run != [] {
      assert (run + t)[1..] == run[1..] + t;
      SkipRun(run[1..], t);
    } else {
      assert run + t == t;
    }
  }

  lemma JoinWithStartsWithFirstToken(ws: seq<string>, seps: seq<string>)
    requires |ws| >= 1 && |seps| == |ws| - 1 && ws[0] != []
    ensures JoinWith(ws, seps) != [] && JoinWith(ws, seps)[0] == ws[0][0]
  {
  }

  /** Runs of whitespace are compressed: whatever nonempty run of
      whitespace stands between two tokens, they split apart exactly as
      with one space, and a trailing run adds one empty last token. */
  lemma {:induction false} SplitJoinWith(ws: seq<string>, seps: seq<string>, trail: string)
    requires |ws| >= 1 && |seps| == |ws| - 1
    requires forall i :: 0 <= i < |ws| ==> ws[i] != [] && NoSpace(ws[i])
    requires forall i :: 0 <= i < |seps| ==> seps[i] != [] && AllSpace(seps[i])
    requires AllSpace(trail)
    ensures Split(JoinWith(ws, seps) + trail) == if trail == [] then ws else ws + [""]
  {
    var s := JoinWith(ws, seps) + trail;
    if |ws| == 1 {
      assert s == ws[0] + trail;
      WordOfSeparated(ws[0], trail);
      assert s[|ws[0]|..] == trail;
      if trail != [] {
        SkipRun(trail, []);
        assert trail + [] == trail;
        SplitEmpty();
      }
    } else {
      var x := JoinWith(ws[1..], seps[1..]) + trail;
      assert s == ws[0] + (seps[0] + x);
      WordOfSeparated(ws[0], seps[0] + x);
      assert s[|ws[0]|..] == seps[0] + x;
      JoinWithStartsWithFirstToken(ws[1..], seps[1..]);
      SkipRun(seps[0], x);
      SplitJoinWith(ws[1..], seps[1..], trail);
      assert [ws[0]] + ws[1..] == ws;
      assert [ws[0]] + (ws[1..] + [""]) == ws + [""];
    }
  }

  /** A leading run of whitespace adds one empty first token. */
  lemma SplitLeadingRun(lead: string, s: string)
    requires lead != [] && AllSpace(lead)
    requires s == [] || !IsSpace(s[0])
    ensures Split(lead + s) == [""] + Split(s)
  {
    var t := lead + s;
    assert IsSpace(t[0]);
    assert Word(t) == [];
    assert t[0..] == t;
    SkipRun(lead, s);
  }

  /** The single empty token comes from the empty line. */
  lemma SplitEmpty()
    ensures Split("") == [""]
  {
  }

  lemma {:induction false} RemoveSpacesAppend(a: string, b: string)
    ensures RemoveSpaces(a + b) == RemoveSpaces(a) + RemoveSpaces(b)
  {
    if a != [] {
      assert (a + b)[1..] == a[1..] + b;
      RemoveSpacesAppend(a[1..], b);
    } else {
      assert a + b == b;
    }
  }

  lemma {:induction false} RemoveSpacesOfNoSpace(s: string)
    requires NoSpace(s)
    ensures RemoveSpaces(s) == s
  {
    if s != [] {
      RemoveSpacesOfNoSpace(s[1..]);
      assert [s[0]] + s[1..] == s;
    }
  }

  lemma {:induction false} RemoveSpacesSkip(s: string)
    ensures RemoveSpaces(SkipSpaces(s)) == RemoveSpaces(s)
  {
    if s != [] && IsSpace(s[0]) {
      RemoveSpacesSkip(s[1..]);
    }
  }

  /** Splitting loses nothing but whitespace: the tokens, concatenated,
      are the line with its whitespace removed. */
  lemma {:induction false} SplitKeepsText(s: string)
    ensures Concat(Split(s)) == RemoveSpaces(s)
    decreases |s|
  {
    var w := Word(s);
    WordIsPrefix(s);
    var rest := s[|w|..];
    assert s == w + rest;
    RemoveSpacesAppend(w, rest);
    RemoveSpacesOfNoSpace(w);
    if rest == [] {
      assert Concat([w]) == w + Concat([]);
    } else {
      var tail := Split(SkipSpaces(rest));
      SplitKeepsText(SkipSpaces(rest));
      RemoveSpacesSkip(rest);
      assert Split(s) == [w] + tail;
      assert ([w] + tail)[1..] == tail;
    }
  }
}
