/** strtok: one call, and the tokens of a whole run. */
module Tokenizer {
  import opened Words
  import opened Numerals

  // ------------------------------------------------------- tokens of a string

  datatype Span = Span(from: nat, to: nat)

  /** A maximal nonempty stretch of the string without delimiters. */
  predicate IsToken(s: seq<char>, d: char, t: Span) {
    && t.from < t.to <= |s|
    && (forall k | t.from <= k < t.to :: s[k] != d)
    && (t.from > 0 ==> s[t.from - 1] == d)
    && (t.to < |s| ==> s[t.to] == d)
  }

  /** The tokens that start at p or later, all of them, from left to right. */
  ghost predicate AreTokens(s: seq<char>, d: char, ts: seq<Span>, p: nat) {
    && (forall i | 0 <= i < |ts| :: IsToken(s, d, ts[i]) && p <= ts[i].from)
    && (forall i, j | 0 <= i < j < |ts| :: ts[i].to < ts[j].from)
    && (forall t | IsToken(s, d, t) && p <= t.from :: t in ts)
  }

  /** A span that comes next in one list does not come earlier in a list that agrees so far. */
  lemma NotEarlier(ts: seq<Span>, us: seq<Span>, m: nat) returns (j: nat)
    requires m < |ts| && m <= |us| && ts[..m] == us[..m] && ts[m] in us && ts[m].from < ts[m].to
    requires forall i | 0 <= i < m :: ts[i].to < ts[m].from
    ensures m <= j < |us| && us[j] == ts[m]
  {
    assert forall k | 0 <= k < m :: us[..m][k] == us[k] && ts[..m][k] == ts[k];
    j :| 0 <= j < |us| && us[j] == ts[m];
  }

  /** There is one answer to what the tokens of a string are. */
  lemma {:induction false} TokensUnique(s: seq<char>, d: char, ts: seq<Span>, us: seq<Span>, p: nat, n: nat)
    requires AreTokens(s, d, ts, p) && AreTokens(s, d, us, p) && n <= |ts|
    ensures n <= |us| && ts[..n] == us[..n]
  {
    if n > 0 {
      var m := n - 1;
      TokensUnique(s, d, ts, us, p, m);
      var j := NotEarlier(ts, us, m);
      var i := NotEarlier(us, ts, m);
      assert ts[m] == us[m];
      assert ts[..n] == ts[..m] + [ts[m]] && us[..n] == us[..m] + [us[m]];
    }
  }

  // ------------------------------------------------------- what the calls scan

  /** Where the first character other than d stands, from k on. */
  function SkipDelims(s: seq<char>, d: char, k: nat): (r: nat)
    requires k <= |s|
    ensures k <= r <= |s|
    decreases |s| - k
  {
    if k < |s| && s[k] == d then SkipDelims(s, d, k + 1) else k
  }

  lemma {:induction false} SkipDelimsIs(s: seq<char>, d: char, k: nat)
    requires k <= |s|
    ensures forall i | k <= i < SkipDelims(s, d, k) :: s[i] == d
    ensures SkipDelims(s, d, k) < |s| ==> s[SkipDelims(s, d, k)] != d
    decreases |s| - k
  {
    if k < |s| && s[k] == d {
      SkipDelimsIs(s, d, k + 1);
    }
  }

  /** Where the first d stands, from k on. */
  function FindDelim(s: seq<char>, d: char, k: nat): (r: nat)
    requires k <= |s|
    ensures k <= r <= |s|
    decreases |s| - k
  {
    if k < |s| && s[k] != d then FindDelim(s, d, k + 1) else k
  }

  lemma {:induction false} FindDelimIs(s: seq<char>, d: char, k: nat)
    requires k <= |s|
    ensures forall i | k <= i < FindDelim(s, d, k) :: s[i] != d
    ensures FindDelim(s, d, k) < |s| ==> s[FindDelim(s, d, k)] == d
    decreases |s| - k
  {
    if k < |s| && s[k] != d {
      FindDelimIs(s, d, k + 1);
    }
  }

  /** The token that a call finds from p on, if it finds one. */
  function NextToken(s: seq<char>, d: char, p: nat): (t: Span)
    requires p <= |s|
    ensures p <= t.from <= t.to <= |s|
    ensures t.from < |s| ==> t.from < t.to
  {
    var a := SkipDelims(s, d, p);
    SkipDelimsIs(s, d, p);
    Span(a, FindDelim(s, d, a))
  }

  /** What stands in front of the next token, in it, and behind it. */
  lemma NextTokenIs(s: seq<char>, d: char, p: nat)
    requires p <= |s|
    ensures var t := NextToken(s, d, p);
            && (forall i | p <= i < t.from :: s[i] == d)
            && (forall i | t.from <= i < t.to :: s[i] != d)
            && (t.to < |s| ==> s[t.to] == d)
  {
    SkipDelimsIs(s, d, p);
    FindDelimIs(s, d, SkipDelims(s, d, p));
  }

  /** Where the call behind it resumes. */
  function Resume(s: seq<char>, t: Span): nat {
    if t.to < |s| then t.to + 1 else |s|
  }

  /** The tokens that calls find from p on. */
  function Tokens(s: seq<char>, d: char, p: nat): seq<Span>
    requires p <= |s|
    decreases |s| - p
  {
    var t := NextToken(s, d, p);
    if t.from == |s| then [] else [t] + Tokens(s, d, Resume(s, t))
  }

  /** A token that starts from p up to the end of the next one is the next one. */
  lemma TokenHere(s: seq<char>, d: char, p: nat, t: Span)
    requires p <= |s| && IsToken(s, d, t) && p <= t.from <= NextToken(s, d, p).to
    ensures t == NextToken(s, d, p)
  {
    NextTokenIs(s, d, p);
    assert s[t.from] != d;
    assert t.from == NextToken(s, d, p).from;
  }

  /** The calls find exactly the tokens. */
  lemma {:induction false} TokensAreTokens(s: seq<char>, d: char, p: nat)
    requires p <= |s| && (0 < p < |s| ==> s[p - 1] == d)
    ensures AreTokens(s, d, Tokens(s, d, p), p)
    decreases |s| - p
  {
    var t := NextToken(s, d, p);
    NextTokenIs(s, d, p);
    if t.from == |s| {
      assert forall u | IsToken(s, d, u) && p <= u.from :: s[u.from] != d;
    } else {
      var q := Resume(s, t);
      TokensAreTokens(s, d, q);
      NextIsFirst(s, d, p, Tokens(s, d, q));
    }
  }

  /** The next token, in front of the tokens from where the call behind it resumes. */
  lemma NextIsFirst(s: seq<char>, d: char, p: nat, rest: seq<Span>)
    requires p <= |s| && (0 < p < |s| ==> s[p - 1] == d) && NextToken(s, d, p).from < |s|
    requires AreTokens(s, d, rest, Resume(s, NextToken(s, d, p)))
    ensures AreTokens(s, d, [NextToken(s, d, p)] + rest, p)
  {
    var t := NextToken(s, d, p);
    NextTokenIs(s, d, p);
    assert IsToken(s, d, t);
    forall u | IsToken(s, d, u) && p <= u.from
      ensures u in [t] + rest
    {
      if u.from <= t.to {
        TokenHere(s, d, p, u);
      }
    }
  }

  // ------------------------------------------------------------------- memory

  /** Memory in which the character behind every listed span is a NUL. */
  function CutAll(mem: seq<char>, str: nat, ts: seq<Span>): (r: seq<char>)
    ensures |r| == |mem|
    decreases |ts|
  {
    if ts == [] then mem
    else CutAll(if str + ts[0].to < |mem| then mem[str + ts[0].to := '\0'] else mem, str, ts[1..])
  }

  /** The addresses of the listed spans. */
  function Starts(str: nat, ts: seq<Span>): (r: seq<nat>)
    ensures |r| == |ts|
  {
    if ts == [] then [] else [str + ts[0].from] + Starts(str, ts[1..])
  }

  lemma {:induction false} StartsAt(str: nat, ts: seq<Span>, i: nat)
    requires i < |ts|
    ensures Starts(str, ts)[i] == str + ts[i].from
  {
    if i > 0 {
      StartsAt(str, ts[1..], i - 1);
    }
  }

  predicate EndsAt(str: nat, t: Span, k: nat) {
    k == str + t.to
  }

  /** Nothing else changes. */
  lemma {:induction false} CutAllAt(mem: seq<char>, str: nat, ts: seq<Span>, k: nat)
    requires k < |mem|
    ensures CutAll(mem, str, ts)[k] ==
            if exists i | 0 <= i < |ts| :: EndsAt(str, ts[i], k) then '\0' else mem[k]
    decreases |ts|
  {
    if ts != [] {
      var rest := ts[1..];
      CutAllAt(if str + ts[0].to < |mem| then mem[str + ts[0].to := '\0'] else mem, str, rest, k);
      assert forall i | 0 <= i < |rest| :: rest[i] == ts[i + 1];
      if i :| 0 <= i < |ts| && EndsAt(str, ts[i], k) {
        assert i > 0 ==> rest[i - 1] == ts[i];
      }
    }
  }

  /** A string of memory, from its character p on, with the NUL behind it. */
  ghost predicate Stands(mem: seq<char>, str: nat, s: seq<char>, p: nat) {
    && p <= |s| && str + |s| < |mem| && mem[str + |s|] == '\0'
    && forall k | str + p <= k < str + |s| :: mem[k] == s[k - str] != '\0'
  }

  /** It still stands if a cut is made in front of it, or where it ends. */
  lemma StandsBehindCut(mem: seq<char>, str: nat, s: seq<char>, p: nat, cut: nat, q: nat)
    requires Stands(mem, str, s, p) && p <= q <= |s| && (cut < str + q || cut == str + |s|)
    ensures Stands(mem, str, s, q)
    ensures Stands(mem[cut := '\0'], str, s, q)
  {
    var now := mem[cut := '\0'];
    forall k | str + q <= k < str + |s|
      ensures now[k] == s[k - str] && now[k] != '\0'
    {
      assert now[k] == mem[k];
    }
    assert Stands(now, str, s, q);
  }

  /** A pointer to a token, which is a string of its own. */
  ghost predicate PointsTo(mem: seq<char>, str: nat, s: seq<char>, t: Span, token: nat) {
    token == str + t.from <= |mem| && t.from <= t.to <= |s| && CString(mem, token) == s[t.from..t.to]
  }

  lemma TokenIsString(mem: seq<char>, str: nat, s: seq<char>, t: Span)
    requires t.from <= t.to <= |s| && str + t.to < |mem| && mem[str + t.to] == '\0'
    requires forall k | str + t.from <= k < str + t.to :: mem[k] == s[k - str] != '\0'
    ensures PointsTo(mem, str, s, t, str + t.from)
  {
    assert mem[str + t.from..str + t.to] == s[t.from..t.to];
    CStringIs(mem, str + t.from, s[t.from..t.to]);
  }

  /** A character of a token keeps its place in the cut memory. */
  lemma TokenCharacter(mem: seq<char>, str: nat, s: seq<char>, d: char, ts: seq<Span>, t: Span, k: nat)
    requires Stands(mem, str, s, 0) && IsToken(s, d, t) && str + t.from <= k < str + t.to
    requires forall j | 0 <= j < |ts| :: IsToken(s, d, ts[j])
    ensures CutAll(mem, str, ts)[k] == s[k - str] != '\0'
  {
    CutAllAt(mem, str, ts, k);
    forall j | 0 <= j < |ts|
      ensures !EndsAt(str, ts[j], k)
    {
      assert IsToken(s, d, ts[j]) && s[k - str] != d;
    }
  }

  /** The end of a token is a NUL of the cut memory. */
  lemma {:induction false} TokenEnd(mem: seq<char>, str: nat, ts: seq<Span>, i: nat)
    requires i < |ts| && str + ts[i].to < |mem|
    ensures CutAll(mem, str, ts)[str + ts[i].to] == '\0'
  {
    CutAllAt(mem, str, ts, str + ts[i].to);
    assert EndsAt(str, ts[i], str + ts[i].to);
  }

  /** Every token is a string of its own in the cut memory. */
  lemma {:induction false} TokenStands(mem: seq<char>, str: nat, s: seq<char>, d: char, ts: seq<Span>, i: nat)
    requires Stands(mem, str, s, 0) && i < |ts|
    requires forall j | 0 <= j < |ts| :: IsToken(s, d, ts[j])
    ensures PointsTo(CutAll(mem, str, ts), str, s, ts[i], str + ts[i].from)
  {
    var t, now := ts[i], CutAll(mem, str, ts);
    assert IsToken(s, d, t);
    TokenEnd(mem, str, ts, i);
    assert forall k | str + t.from <= k < str + t.to :: now[k] == s[k - str] != '\0' by {
      forall k | str + t.from <= k < str + t.to
        ensures now[k] == s[k - str] != '\0'
      {
        TokenCharacter(mem, str, s, d, ts, t, k);
      }
    }
    TokenIsString(now, str, s, t);
  }

  lemma StringStands(mem: seq<char>, str: nat)
    requires str < |mem| && str + |CString(mem, str)| < |mem|
    ensures Stands(mem, str, CString(mem, str), 0)
  {
    var s := CString(mem, str);
    CStringAt(mem, str);
    assert forall k | str <= k < str + |s| :: mem[k] == mem[str..str + |s|][k - str] == s[k - str];
  }

  /** What a call that finds a token leaves for the calls behind it. */
  lemma CallsBehind(mem: seq<char>, str: nat, s: seq<char>, d: char, p: nat)
    requires p <= |s| && str + |s| < |mem| && NextToken(s, d, p).from < |s|
    ensures var t := NextToken(s, d, p);
            var q := Resume(s, t);
            && p < q <= |s|
            && CutAll(mem, str, Tokens(s, d, p)) == CutAll(mem[str + t.to := '\0'], str, Tokens(s, d, q))
            && Starts(str, Tokens(s, d, p)) == [str + t.from] + Starts(str, Tokens(s, d, q))
  {
    var t := NextToken(s, d, p);
    assert ([t] + Tokens(s, d, Resume(s, t)))[1..] == Tokens(s, d, Resume(s, t));
  }

  /** What one call adds to the list of a run. */
  function Found(token: Option<nat>): seq<nat> {
    if token == None then [] else [token.value]
  }

  lemma Shift(xs: seq<nat>, x: nat, ys: seq<nat>)
    ensures xs + (Found(Some(x)) + ys) == xs + [x] + ys
  {
  }

  lemma NoMoreTokens(s: seq<char>, d: char, p: nat)
    requires p <= |s| && NextToken(s, d, p).from == |s|
    ensures Resume(s, NextToken(s, d, p)) == |s| && Tokens(s, d, p) == [] && Tokens(s, d, |s|) == []
  {
  }

  /** In the memory that a run leaves, each pointer it has returned is a string of its own: its token. */
  lemma RunLeavesTokens(mem: seq<char>, str: nat, s: seq<char>, d: char, i: nat)
    requires Stands(mem, str, s, 0) && i < |Tokens(s, d, 0)|
    ensures var ts := Tokens(s, d, 0); PointsTo(CutAll(mem, str, ts), str, s, ts[i], Starts(str, ts)[i])
  {
    var ts := Tokens(s, d, 0);
    assert forall j | 0 <= j < |ts| :: IsToken(s, d, ts[j]) by {
      TokensAreTokens(s, d, 0);
    }
    StartsAt(str, ts, i);
    TokenStands(mem, str, s, d, ts, i);
  }

  class Tokenizer {
    const mem: array<char>
    /** The static pointer; None is NULL. */
    var ptr: Option<nat>

    constructor (memory: array<char>)
      ensures mem == memory && ptr == None
    {
      mem := memory;
      ptr := None;
    }

    /** The loop over the leading delimiters. */
    method SkipLeading(from: nat, delim: char, ghost str: nat, ghost s: seq<char>, ghost p: nat) returns (i: nat)
      requires Stands(mem[..], str, s, p) && from == str + p
      ensures i == str + SkipDelims(s, delim, p)
    {
      SkipDelimsIs(s, delim, p);
      i := from;
      while mem[i] == delim
        invariant from <= i <= str + SkipDelims(s, delim, p)
        decreases str + |s| - i
      {
        if mem[i] == '\0' {
          break;
        }
        i := i + 1;
      }
    }

    /** The loop to the next delimiter. */
    method ScanToken(from: nat, delim: char, ghost str: nat, ghost s: seq<char>, ghost p: nat) returns (i: nat)
      requires Stands(mem[..], str, s, p) && from == str + p
      ensures i == str + FindDelim(s, delim, p)
    {
      FindDelimIs(s, delim, p);
      i := from;
      while mem[i] != delim
        invariant from <= i <= str + FindDelim(s, delim, p)
        decreases str + |s| - i
      {
        if mem[i] == '\0' {
          break;
        }
        i := i + 1;
      }
    }

    /**
     * strtok, on the string s from its character p on: the next token, or None. The
     * delimiter behind it becomes a NUL, and the pointer comes to stand behind that.
     */
    method Strtok(str: Option<nat>, delim: char, ghost at: nat, ghost s: seq<char>, ghost p: nat)
      returns (token: Option<nat>)
      requires str == Some(at + p) || (str == None && ptr == Some(at + p))
      requires Stands(mem[..], at, s, p)
      modifies this`ptr, mem
      ensures var t := NextToken(s, delim, p);
              && ptr == Some(at + Resume(s, t))
              && (if t.from == |s| then token == None && mem[..] == old(mem[..])
                  else token == Some(at + t.from) && mem[..] == old(mem[..])[at + t.to := '\0'])
      ensures Stands(mem[..], at, s, Resume(s, NextToken(s, delim, p)))
    {
      if str.Some? {
        ptr := str;
      }
      ghost var before, t := mem[..], NextToken(s, delim, p);
      StandsBehindCut(before, at, s, p, at + t.to, Resume(s, t));
      var i := SkipLeading(ptr.value, delim, at, s, p);
      ptr := Some(i);
      if mem[i] == '\0' {
        return None;
      }
      token := ptr;
      i := ScanToken(i, delim, at, s, SkipDelims(s, delim, p));
      ptr := Some(i);
      if mem[i] != '\0' {
        mem[i] := '\0';
        ptr := Some(i + 1);
      }
      assert mem[..] == before[at + t.to := '\0'];
    }

    /** One call of a run, in terms of the tokens and the cuts that are still to come. */
    method Round(arg: Option<nat>, delim: char, ghost str: nat, ghost s: seq<char>, ghost p: nat)
      returns (token: Option<nat>, ghost q: nat)
      requires arg == Some(str + p) || (arg == None && ptr == Some(str + p))
      requires Stands(mem[..], str, s, p)
      modifies this`ptr, mem
      ensures p <= q <= |s| && ptr == Some(str + q) && Stands(mem[..], str, s, q)
      ensures CutAll(mem[..], str, Tokens(s, delim, q)) == CutAll(old(mem[..]), str, Tokens(s, delim, p))
      ensures Starts(str, Tokens(s, delim, p)) == Found(token) + Starts(str, Tokens(s, delim, q))
      ensures if token == None then q == |s| && Tokens(s, delim, q) == [] else p < q
    {
      ghost var was, t := mem[..], NextToken(s, delim, p);
      q := Resume(s, t);
      if t.from == |s| {
        NoMoreTokens(s, delim, p);
      } else {
        CallsBehind(was, str, s, delim, p);
      }
      token := Strtok(arg, delim, str, s, p);
    }

    /**
     * A whole run: one call with the string, then calls with NULL until there is no token.
     * The calls return pointers to the tokens of the string, all of them and in order; of
     * the memory, only the delimiter behind each token is overwritten. In the state at the
     * end, a further call with NULL finds no token.
     */
    method Tokenize(str: nat, delim: char) returns (tokens: seq<nat>)
      requires str < mem.Length && str + |CString(mem[..], str)| < mem.Length
      modifies this`ptr, mem
      ensures var s := old(CString(mem[..], str));
              && tokens == Starts(str, Tokens(s, delim, 0))
              && mem[..] == CutAll(old(mem[..]), str, Tokens(s, delim, 0))
              && ptr == Some(str + |s|) && Stands(mem[..], str, s, |s|)
    {
      ghost var before, s := mem[..], CString(mem[..], str);
      StringStands(before, str);
      ghost var p, all := 0, Tokens(s, delim, 0);
      var token;
      tokens := [];
      token, p := Round(Some(str), delim, str, s, 0);
      while token != None
        invariant p <= |s| && ptr == Some(str + p) && Stands(mem[..], str, s, p)
        invariant CutAll(mem[..], str, Tokens(s, delim, p)) == CutAll(before, str, all)
        invariant tokens + (Found(token) + Starts(str, Tokens(s, delim, p))) == Starts(str, all)
        invariant token == None ==> p == |s| && Tokens(s, delim, p) == []
        decreases |s| - p, token != None
      {
        Shift(tokens, token.value, Starts(str, Tokens(s, delim, p)));
        tokens := tokens + [token.value];
        token, p := Round(None, delim, str, s, p);
      }
      assert Found(token) + Starts(str, Tokens(s, delim, p)) == [] && tokens + [] == tokens;
    }
  }
}
