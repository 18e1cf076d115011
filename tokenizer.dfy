/**
 * The unsafe tokenizer of the thread-safety demonstration.
 *
 * `Strtok` is the strtok-style tokenizer: it keeps its cursor between calls
 * in a hidden variable shared by every caller, skips leading delimiters,
 * and terminates each token in the caller's buffer by overwriting the
 * delimiter that ends it with a NUL character. Buffers are C strings: an
 * array of characters with a NUL somewhere at or after the cursor.
 */
module Tokenizer {

  const NUL: char := '\0'

  /** A `char*`: null, or a position in a character buffer. */
  datatype Ptr = Null | At(buf: array<char>, off: nat)

  /** The buffer cells a pointer can reach. */
  function Cells(p: Ptr): set<array<char>>
  {
    if p.At? then {p.buf} else {}
  }

  /** A NUL occurs at or after position `i`: a C string starts at `i`. */
  ghost predicate NulFrom(s: seq<char>, i: nat)
  {
    exists z :: i <= z < |s| && s[z] == NUL
  }

  /** A non-null pointer points into its buffer at a C string: a NUL follows at or after it. */
  ghost predicate Terminated(p: Ptr)
    reads Cells(p)
  {
    p.At? ==> NulFrom(p.buf[..], p.off)
  }

  /** The C string ends at `i`: a NUL, or the end of the buffer. */
  predicate Ends(s: seq<char>, i: nat)
  {
    i >= |s| || s[i] == NUL
  }

  /** The first position at or after `i` where the string ends or a non-delimiter stands: where a token can start. */
  function Lead(s: seq<char>, i: nat, delim: seq<char>): (r: nat)
    requires i <= |s|
    ensures i <= r <= |s| && (Ends(s, r) || s[r] !in delim)
    decreases |s| - i
  {
    if Ends(s, i) || s[i] !in delim then i else Lead(s, i + 1, delim)
  }

  /** The first position at or after `i` where the string ends or a delimiter stands: where a token ends. */
  function Span(s: seq<char>, i: nat, delim: seq<char>): (r: nat)
    requires i <= |s|
    ensures i <= r <= |s| && (Ends(s, r) || s[r] in delim)
    decreases |s| - i
  {
    if Ends(s, i) || s[i] in delim then i else Span(s, i + 1, delim)
  }

  /** Everything `Lead` passes over is a delimiter, so it is the first position where a token can start. */
  lemma {:induction false} LeadSkips(s: seq<char>, i: nat, delim: seq<char>)
    requires i <= |s|
    ensures forall q :: i <= q < Lead(s, i, delim) ==> s[q] != NUL && s[q] in delim
    decreases |s| - i
  {
    if !Ends(s, i) && s[i] in delim {
      LeadSkips(s, i + 1, delim);
    }
  }

  /** Everything `Span` passes over is a token character, so it is the first position where the token ends. */
  lemma {:induction false} SpanRuns(s: seq<char>, i: nat, delim: seq<char>)
    requires i <= |s|
    ensures forall q :: i <= q < Span(s, i, delim) ==> s[q] != NUL && s[q] !in delim
    decreases |s| - i
  {
    if !Ends(s, i) && s[i] !in delim {
      SpanRuns(s, i + 1, delim);
    }
  }

  /** A token: non-empty, with neither NUL nor a delimiter in it. */
  predicate IsToken(w: seq<char>, delim: seq<char>)
  {
    |w| > 0 && NUL !in w && forall c :: c in w ==> c !in delim
  }

  /**
   * The tokens of the C string at `i`, left to right: the maximal runs of
   * non-delimiters before the first NUL.
   */
  ghost function Tokens(s: seq<char>, i: nat, delim: seq<char>): seq<seq<char>>
    requires i <= |s|
    decreases |s| - i
  {
    var st := Lead(s, i, delim);
    if Ends(s, st) then []
    else
      var e := Span(s, st, delim);
      [s[st..e]] + (if Ends(s, e) then [] else Tokens(s, e + 1, delim))
  }

  /** Every token is non-empty and holds neither NUL nor a delimiter. */
  lemma {:induction false} TokensAreTokens(s: seq<char>, i: nat, delim: seq<char>)
    requires i <= |s|
    ensures forall k :: 0 <= k < |Tokens(s, i, delim)| ==> IsToken(Tokens(s, i, delim)[k], delim)
    decreases |s| - i
  {
    var st := Lead(s, i, delim);
    if !Ends(s, st) {
      var e := Span(s, st, delim);
      var w := s[st..e];
      SpanRuns(s, st, delim);
      assert IsToken(w, delim) by {
        assert forall j :: 0 <= j < |w| ==> w[j] == s[st + j];
      }
      var rest := if Ends(s, e) then [] else Tokens(s, e + 1, delim);
      if !Ends(s, e) {
        TokensAreTokens(s, e + 1, delim);
      }
      var ts := Tokens(s, i, delim);
      assert ts == [w] + rest;
      forall k | 0 <= k < |ts| ensures IsToken(ts[k], delim) {
        if k > 0 {
          assert ts[k] == rest[k - 1];
        }
      }
    }
  }

  /** Two strings that agree from `i` on agree from any later `j` on, and at `j`. */
  lemma SuffixFrom(s: seq<char>, t: seq<char>, i: nat, j: nat)
    requires i <= j <= |s| == |t| && s[i..] == t[i..]
    ensures s[j..] == t[j..] && (j < |s| ==> s[j] == t[j])
  {
    assert s[j..] == s[i..][j - i..];
    assert t[j..] == t[i..][j - i..];
    if j < |s| {
      assert s[j] == s[j..][0];
      assert t[j] == t[j..][0];
    }
  }

  lemma {:induction false} LeadSuffix(s: seq<char>, t: seq<char>, i: nat, delim: seq<char>)
    requires i <= |s| == |t| && s[i..] == t[i..]
    ensures Lead(s, i, delim) == Lead(t, i, delim)
    decreases |s| - i
  {
    SuffixFrom(s, t, i, i);
    if !Ends(s, i) && s[i] in delim {
      SuffixFrom(s, t, i, i + 1);
      LeadSuffix(s, t, i + 1, delim);
    }
  }

  lemma {:induction false} SpanSuffix(s: seq<char>, t: seq<char>, i: nat, delim: seq<char>)
    requires i <= |s| == |t| && s[i..] == t[i..]
    ensures Span(s, i, delim) == Span(t, i, delim)
    decreases |s| - i
  {
    SuffixFrom(s, t, i, i);
    if !Ends(s, i) && s[i] !in delim {
      SuffixFrom(s, t, i, i + 1);
      SpanSuffix(s, t, i + 1, delim);
    }
  }

  /** One step of `Tokens`, for the three ways a scan from `i` can go. */
  lemma TokensStep(s: seq<char>, i: nat, delim: seq<char>)
    requires i <= |s|
    ensures var st := Lead(s, i, delim);
      Ends(s, st) ==> Tokens(s, i, delim) == []
    ensures var st := Lead(s, i, delim); var en := Span(s, st, delim);
      !Ends(s, st) && Ends(s, en) ==> Tokens(s, i, delim) == [s[st..en]]
    ensures var st := Lead(s, i, delim); var en := Span(s, st, delim);
      !Ends(s, st) && !Ends(s, en) ==> Tokens(s, i, delim) == [s[st..en]] + Tokens(s, en + 1, delim)
  {
  }

  /** The C string at `p` in `s` is exactly `w`: `w` sits at `p` and a NUL follows it. */
  ghost predicate IsTextAt(s: seq<char>, p: nat, w: seq<char>)
  {
    p + |w| < |s| && s[p..p + |w|] == w && s[p + |w|] == NUL
  }

  /**
   * What one call does to the C string at `p` of buffer `b`, whose
   * contents are `s`: the token it returns (null when only delimiters are
   * left), the contents afterwards, and the cursor it leaves for the next
   * call (null once the NUL is reached).
   */
  datatype Outcome = Outcome(token: Ptr, text: seq<char>, cursor: Ptr)

  function Scan(b: array<char>, s: seq<char>, p: nat, delim: seq<char>): (r: Outcome)
    requires p <= |s|
    ensures |r.text| == |s|
    ensures r.cursor.At? ==> r.token.At? && r.cursor.buf == b && p < r.cursor.off <= |s|
  {
    var st := Lead(s, p, delim);
    if Ends(s, st) then Outcome(Null, s, Null)
    else
      var e := Span(s, st, delim);
      if Ends(s, e) then Outcome(At(b, st), s, Null)
      else Outcome(At(b, st), s[e := NUL], At(b, e + 1))
  }

  /** The offsets a returned pointer contributes to the list of token starts. */
  function Offsets(tok: Ptr): (r: seq<nat>)
    ensures |r| == if tok.At? then 1 else 0
  {
    if tok.At? then [tok.off] else []
  }

  /** Writing a NUL at `e` terminates the text from `st` in place and leaves the rest alone. */
  lemma Terminate(s: seq<char>, p: nat, st: nat, e: nat)
    requires p <= st <= e < |s|
    ensures IsTextAt(s[e := NUL], st, s[st..e])
    ensures s[e := NUL][..p] == s[..p] && s[e := NUL][e + 1..] == s[e + 1..]
  {
    var t := s[e := NUL];
    assert t[st..e] == s[st..e];
  }

  /**
   * Where `s` agrees with `s0` from `p` on, a scan from `p` finds the same
   * token in both, and the two still agree after the delimiter that ends it.
   */
  lemma ScanAgree(s: seq<char>, s0: seq<char>, p: nat, delim: seq<char>)
    requires p <= |s| == |s0| && s[p..] == s0[p..]
    ensures var st := Lead(s, p, delim);
      st == Lead(s0, p, delim) && Ends(s, st) == Ends(s0, st)
    ensures var st := Lead(s, p, delim); var e := Span(s, st, delim);
      !Ends(s, st) ==>
        e == Span(s0, st, delim) && Ends(s, e) == Ends(s0, e) && s[st..e] == s0[st..e] &&
        (e < |s| ==> s[e + 1..] == s0[e + 1..])
  {
    LeadSuffix(s, s0, p, delim);
    var st := Lead(s, p, delim);
    SuffixFrom(s, s0, p, st);
    if !Ends(s, st) {
      SpanSuffix(s, s0, st, delim);
      var e := Span(s, st, delim);
      SuffixFrom(s, s0, st, e);
      assert s[st..e] == s[st..][..e - st];
      assert s0[st..e] == s0[st..][..e - st];
      if e < |s| {
        SuffixFrom(s, s0, e, e + 1);
      }
    }
  }

  /**
   * A call on the C string at `p` of contents `s` returns the first token
   * of `s0`, the string `s` agrees with from `p` on, terminated in place;
   * it returns null exactly when there is no token. It writes nothing
   * before `p`. When the cursor stays non-null, the contents still agree
   * with `s0` from the cursor on and the tokens of `s0` there are the rest;
   * when it becomes null there were no more.
   */
  lemma ScanTokens(b: array<char>, s: seq<char>, s0: seq<char>, p: nat, delim: seq<char>)
    requires NulFrom(s, p) && |s| == |s0| && s[p..] == s0[p..]
    ensures var r := Scan(b, s, p, delim); var ts := Tokens(s0, p, delim);
      (r.token.Null? <==> ts == []) &&
      r.text[..p] == s[..p] &&
      (r.token.At? ==> r.token.buf == b && p <= r.token.off && IsTextAt(r.text, r.token.off, ts[0])) &&
      (r.cursor.At? ==>
        r.token.off + |ts[0]| < r.cursor.off && r.text[r.cursor.off..] == s0[r.cursor.off..] &&
        Tokens(s0, r.cursor.off, delim) == ts[1..]) &&
      (r.cursor.Null? ==> |ts| <= 1)
  {
    var st := Lead(s, p, delim);
    if !Ends(s, st) {
      var e := Span(s, st, delim);
      if !Ends(s, e) {
        ScanMore(b, s, s0, p, delim);
      } else {
        ScanLast(b, s, s0, p, delim);
      }
    } else {
      ScanAgree(s, s0, p, delim);
      TokensStep(s0, p, delim);
    }
  }

  lemma ScanLast(b: array<char>, s: seq<char>, s0: seq<char>, p: nat, delim: seq<char>)
    requires NulFrom(s, p) && |s| == |s0| && s[p..] == s0[p..]
    requires !Ends(s, Lead(s, p, delim)) && Ends(s, Span(s, Lead(s, p, delim), delim))
    ensures var st := Lead(s, p, delim); var e := Span(s, st, delim);
      e < |s| && Tokens(s0, p, delim) == [s[st..e]] && Scan(b, s, p, delim) == Outcome(At(b, st), s, Null)
  {
    ScanAgree(s, s0, p, delim);
    TokensStep(s0, p, delim);
    var st := Lead(s, p, delim);
    var z :| p <= z < |s| && s[z] == NUL;
    LeadSkips(s, p, delim);
    SpanRuns(s, st, delim);
  }

  lemma ScanMore(b: array<char>, s: seq<char>, s0: seq<char>, p: nat, delim: seq<char>)
    requires p <= |s| == |s0| && s[p..] == s0[p..]
    requires !Ends(s, Lead(s, p, delim)) && !Ends(s, Span(s, Lead(s, p, delim), delim))
    ensures var r := Scan(b, s, p, delim); var ts := Tokens(s0, p, delim);
      r.token.At? && r.cursor.At? && ts != [] &&
      r.text[..p] == s[..p] &&
      r.token.buf == b && p <= r.token.off && IsTextAt(r.text, r.token.off, ts[0]) &&
      r.token.off + |ts[0]| < r.cursor.off && r.text[r.cursor.off..] == s0[r.cursor.off..] &&
      Tokens(s0, r.cursor.off, delim) == ts[1..]
  {
    ScanAgree(s, s0, p, delim);
    var st := Lead(s, p, delim);
    var e := Span(s, st, delim);
    var t := s[e := NUL];
    TokensNext(s0, p, st, e, delim);
    Terminate(s, p, st, e);
    assert Scan(b, s, p, delim) == Outcome(At(b, st), t, At(b, e + 1));
  }

  /** The unfolding of `Tokens` when the first token ends at a delimiter. */
  lemma TokensNext(s: seq<char>, i: nat, st: nat, e: nat, delim: seq<char>)
    requires i <= |s| && st == Lead(s, i, delim) && e == Span(s, st, delim) && !Ends(s, st) && !Ends(s, e)
    ensures var ts := Tokens(s, i, delim); ts != [] && ts[0] == s[st..e] && ts[1..] == Tokens(s, e + 1, delim)
  {
    var ts := Tokens(s, i, delim);
    assert ts == [s[st..e]] + Tokens(s, e + 1, delim);
  }

  /** The tokens returned so far are C strings in place, in the order of `all`. */
  ghost predicate InPlace(s: seq<char>, returned: seq<nat>, all: seq<seq<char>>)
  {
    |returned| <= |all| && forall k :: 0 <= k < |returned| ==> IsTextAt(s, returned[k], all[k])
  }

  /** The tokens returned so far, with their NULs, lie before position `off`. */
  ghost predicate Before(returned: seq<nat>, all: seq<seq<char>>, off: nat)
  {
    |returned| <= |all| && forall k :: 0 <= k < |returned| ==> returned[k] + |all[k]| < off
  }

  /**
   * How far a caller has got through the tokens `all` of the original
   * contents `s0`: the tokens whose starts it has been returned are C
   * strings in place and lie before the cursor, the contents from the
   * cursor on are still the original ones, and the tokens there are the
   * rest of `all`.
   */
  ghost predicate Progress(s: seq<char>, s0: seq<char>, returned: seq<nat>, cursor: Ptr, all: seq<seq<char>>,
                           delim: seq<char>)
  {
    InPlace(s, returned, all) &&
    (cursor.At? ==>
      Before(returned, all, cursor.off) && cursor.off <= |s| == |s0| &&
      s[cursor.off..] == s0[cursor.off..] && Tokens(s0, cursor.off, delim) == all[|returned|..]) &&
    (cursor.Null? ==> |returned| == |all|)
  }

  /** A change at or after `p` leaves C strings that end before `p` in place. */
  lemma InPlaceKept(s: seq<char>, t: seq<char>, returned: seq<nat>, all: seq<seq<char>>, p: nat)
    requires InPlace(s, returned, all) && Before(returned, all, p)
    requires |t| == |s| && p <= |s| && t[..p] == s[..p]
    ensures InPlace(t, returned, all)
  {
    forall k | 0 <= k < |returned| ensures IsTextAt(t, returned[k], all[k]) {
      var q, w := returned[k], all[k];
      forall i | 0 <= i < p ensures t[i] == s[i] {
        assert t[i] == t[..p][i];
      }
      assert t[q..q + |w|] == s[q..q + |w|];
    }
  }

  /** Splitting the tokens still to come into the next one and the rest. */
  lemma SplitRest(all: seq<seq<char>>, k: nat, ts: seq<seq<char>>)
    requires k <= |all| && all[k..] == ts && ts != []
    ensures k < |all| && all[k] == ts[0] && all[k + 1..] == ts[1..]
  {
    assert all[k..][0] == ts[0];
    assert all[k + 1..] == all[k..][1..];
  }

  /**
   * Each call keeps `Progress`: it returns the start of the next token of
   * `all`, or null when none is left, and moves the cursor forward.
   */
  lemma ProgressStep(s: seq<char>, s0: seq<char>, returned: seq<nat>, b: array<char>, p: nat,
                     all: seq<seq<char>>, delim: seq<char>)
    requires Progress(s, s0, returned, At(b, p), all, delim) && NulFrom(s, p)
    ensures var r := Scan(b, s, p, delim);
      Progress(r.text, s0, returned + Offsets(r.token), r.cursor, all, delim)
  {
    var r := Scan(b, s, p, delim);
    var ts := Tokens(s0, p, delim);
    ScanTokens(b, s, s0, p, delim);
    InPlaceKept(s, r.text, returned, all, p);
    var k := |returned|;
    if r.token.At? {
      SplitRest(all, k, ts);
      var r' := returned + [r.token.off];
      assert InPlace(r.text, r', all) by {
        assert forall j :: 0 <= j < k ==> r'[j] == returned[j];
      }
      if r.cursor.At? {
        assert Before(r', all, r.cursor.off) by {
          assert forall j :: 0 <= j < k ==> r'[j] == returned[j];
        }
        assert all[|r'|..] == ts[1..];
      } else {
        assert |all| == k + 1;
      }
    } else {
      assert returned + [] == returned;
    }
  }

  /** The leading-delimiter loop: from `from`, advance over delimiters to where a token can start. */
  method SkipDelims(buf: array<char>, from: nat, delim: seq<char>) returns (start: nat)
    requires NulFrom(buf[..], from)
    ensures start == Lead(buf[..], from, delim) && NulFrom(buf[..], start)
  {
    ghost var s := buf[..];
    start := from;
    while buf[start] != NUL && buf[start] in delim
      invariant from <= start < buf.Length && NulFrom(s, start)
      invariant Lead(s, start, delim) == Lead(s, from, delim)
      decreases buf.Length - start
    {
      start := start + 1;
    }
  }

  /** The token loop: from `start`, advance over non-delimiters to the delimiter or NUL that ends the token. */
  method FindEnd(buf: array<char>, start: nat, delim: seq<char>) returns (end: nat)
    requires NulFrom(buf[..], start)
    ensures end == Span(buf[..], start, delim) && NulFrom(buf[..], end)
  {
    ghost var s := buf[..];
    end := start;
    while buf[end] != NUL && buf[end] !in delim
      invariant start <= end < buf.Length && NulFrom(s, end)
      invariant Span(s, end, delim) == Span(s, start, delim)
      decreases buf.Length - end
    {
      end := end + 1;
    }
  }

  /** The shared tokenizer state: the hidden cursor that survives between calls. */
  class Strtok {
    var next: Ptr

    constructor ()
      ensures next == Null
    {
      next := Null;
    }

    /** The cursor is null or points at a C string. */
    ghost predicate Valid()
      reads this, Cells(next)
    {
      Terminated(next)
    }

    /** Where a call with argument `str` starts: at `str` when it is not null, else at the saved cursor. */
    function Resume(str: Ptr): Ptr
      reads this
    {
      if str.At? then str else next
    }

    /**
     * One call. A non-null `str` replaces the cursor. A null cursor gives
     * null. Otherwise the call does what `Scan` describes on the buffer the
     * cursor points into: it skips leading delimiters, returns null when
     * only they remain before the NUL, and otherwise returns the token's
     * first character, overwriting the delimiter that ends the token with
     * NUL and moving the cursor just past it, or leaving the cursor null
     * when the token ends at the NUL. No other buffer cell changes.
     */
    method Next(str: Ptr, delim: seq<char>) returns (tok: Ptr)
      requires Terminated(Resume(str))
      modifies this, Cells(Resume(str))
      ensures Valid()
      ensures old(Resume(str)).Null? ==> tok == Null && next == Null
      ensures old(Resume(str)).At? ==>
        var c := old(Resume(str));
        var r := Scan(c.buf, old(c.buf[..]), c.off, delim);
        tok == r.token && next == r.cursor && c.buf[..] == r.text
    {
      if str.At? {
        next := str;
      }
      if next.Null? {
        return Null;
      }
      var buf := next.buf;
      ghost var s := buf[..];
      var start := SkipDelims(buf, next.off, delim);
      if buf[start] == NUL {
        next := Null;
        return Null;
      }
      var end := FindEnd(buf, start, delim);
      if buf[end] != NUL {
        buf[end] := NUL;
        next := At(buf, end + 1);
        assert buf[..] == s[end := NUL];
        assert NulFrom(buf[..], end + 1) by {
          var z :| end <= z < |s| && s[z] == NUL;
          assert buf[..][z] == NUL;
        }
      } else {
        next := Null;
      }
      tok := At(buf, start);
    }

    /**
     * The calling loop of the demonstration's unsafe worker: one call with
     * the buffer, then calls with null until the result is null. The
     * results are the start positions of the string's tokens, in order,
     * and after the last call each of them is the C string of its token.
     */
    method TokenizeInPlace(buf: array<char>, delim: seq<char>) returns (starts: seq<nat>)
      requires NUL in buf[..]
      modifies this, buf
      ensures Valid() && next == Null
      ensures |starts| == |Tokens(old(buf[..]), 0, delim)|
      ensures InPlace(buf[..], starts, Tokens(old(buf[..]), 0, delim))
    {
      ghost var s0 := buf[..];
      ghost var all := Tokens(s0, 0, delim);
      starts := [];
      ProgressStep(s0, s0, [], buf, 0, all, delim);
      var tok := Next(At(buf, 0), delim);
      while tok.At?
        invariant Valid() && (next.At? ==> next.buf == buf)
        invariant tok.Null? ==> next.Null?
        invariant Progress(buf[..], s0, starts + Offsets(tok), next, all, delim)
        decreases if next.At? then buf.Length + 1 - next.off else 0, tok.At?
      {
        starts := starts + [tok.off];
        if next.At? {
          ProgressStep(buf[..], s0, starts, buf, next.off, all, delim);
        }
        tok := Next(Null, delim);
      }
    }
  }
}
