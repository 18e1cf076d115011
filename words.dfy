/**
 * The thread-safe tokenizer of the thread-safety demonstration: it reads
 * whitespace-separated words from a string stream, one extraction at a
 * time, and keeps no state between calls.
 */
module SafeTokenizer {

  /** The characters a stream's word extraction treats as white space (those of the C locale). */
  predicate IsSpace(c: char)
  {
    c == ' ' || c == '\t' || c == '\n' || c == '\U{000B}' || c == '\U{000C}' || c == '\r'
  }

  /** A word: non-empty, with no white space in it. */
  predicate IsWord(w: seq<char>)
  {
    |w| > 0 && forall c :: c in w ==> !IsSpace(c)
  }

  /** The length of the run of non-space characters that `s` starts with. */
  function WordLen(s: seq<char>): (n: nat)
    ensures n <= |s|
    ensures s != [] && !IsSpace(s[0]) ==> n > 0
  {
    if s == [] || IsSpace(s[0]) then 0 else 1 + WordLen(s[1..])
  }

  /**
   * The words of `s`, left to right: its maximal runs of non-space
   * characters, white space between them dropped.
   */
  function Words(s: seq<char>): seq<seq<char>>
    decreases |s|
  {
    if s == [] then []
    else if IsSpace(s[0]) then Words(s[1..])
    else
      var n := WordLen(s);
      [s[..n]] + Words(s[n..])
  }

  /** The characters of `s` that are not white space, in order. */
  function NonSpace(s: seq<char>): seq<char>
  {
    if s == [] then [] else (if IsSpace(s[0]) then [] else [s[0]]) + NonSpace(s[1..])
  }

  /** The words `ws` written one after another. */
  function Concat(ws: seq<seq<char>>): seq<char>
  {
    if ws == [] then [] else ws[0] + Concat(ws[1..])
  }

  /** The words `ws` written with one space between neighbours. */
  function JoinSpaced(ws: seq<seq<char>>): seq<char>
  {
    if ws == [] then []
    else if |ws| == 1 then ws[0]
    else ws[0] + [' '] + JoinSpaced(ws[1..])
  }

  /** A run of `n` non-space characters followed by white space or the end is what `WordLen` measures. */
  lemma {:induction false} WordLenIs(s: seq<char>, n: nat)
    requires n <= |s| && (n == |s| || IsSpace(s[n]))
    requires forall m :: 0 <= m < n ==> !IsSpace(s[m])
    ensures WordLen(s) == n
  {
    if n > 0 {
      assert forall m :: 0 <= m < n - 1 ==> s[1..][m] == s[m + 1];
      WordLenIs(s[1..], n - 1);
    }
  }

  /** The run `WordLen` measures has no white space and ends at white space or at the end. */
  lemma {:induction false} WordLenRuns(s: seq<char>)
    ensures forall m :: 0 <= m < WordLen(s) ==> !IsSpace(s[m])
    ensures WordLen(s) == |s| || IsSpace(s[WordLen(s)])
  {
    if s != [] && !IsSpace(s[0]) {
      WordLenRuns(s[1..]);
      assert forall m :: 1 <= m < WordLen(s) ==> s[m] == s[1..][m - 1];
    }
  }

  /** Every word is non-empty and has no white space in it. */
  lemma {:induction false} WordsAreWords(s: seq<char>)
    ensures forall k :: 0 <= k < |Words(s)| ==> IsWord(Words(s)[k])
    decreases |s|
  {
    if s != [] {
      if IsSpace(s[0]) {
        WordsAreWords(s[1..]);
      } else {
        var n := WordLen(s);
        WordLenRuns(s);
        WordsAreWords(s[n..]);
        var w := s[..n];
        assert IsWord(w) by {
          assert forall m :: 0 <= m < n ==> w[m] == s[m];
        }
        var ws := Words(s);
        forall k | 0 <= k < |ws| ensures IsWord(ws[k]) {
          if k > 0 {
            assert ws[k] == Words(s[n..])[k - 1];
          }
        }
      }
    }
  }

  lemma {:induction false} ConcatAppend(a: seq<seq<char>>, b: seq<seq<char>>)
    ensures Concat(a + b) == Concat(a) + Concat(b)
  {
    if a == [] {
      assert a + b == b;
    } else {
      assert (a + b)[1..] == a[1..] + b;
      ConcatAppend(a[1..], b);
      calc {
        Concat(a + b);
        (a + b)[0] + Concat((a + b)[1..]);
        a[0] + (Concat(a[1..]) + Concat(b));
        (a[0] + Concat(a[1..])) + Concat(b);
      }
    }
  }

  lemma {:induction false} NonSpaceAppend(a: seq<char>, b: seq<char>)
    ensures NonSpace(a + b) == NonSpace(a) + NonSpace(b)
  {
    if a == [] {
      assert a + b == b;
    } else {
      assert (a + b)[1..] == a[1..] + b;
      NonSpaceAppend(a[1..], b);
      var h := if IsSpace(a[0]) then [] else [a[0]];
      calc {
        NonSpace(a + b);
        h + NonSpace((a + b)[1..]);
        h + (NonSpace(a[1..]) + NonSpace(b));
        (h + NonSpace(a[1..])) + NonSpace(b);
      }
    }
  }

  /** A run with no white space is its own non-space text. */
  lemma {:induction false} NonSpaceOfRun(w: seq<char>)
    requires forall m :: 0 <= m < |w| ==> !IsSpace(w[m])
    ensures NonSpace(w) == w
  {
    if w != [] {
      assert forall m :: 0 <= m < |w| - 1 ==> w[1..][m] == w[m + 1];
      NonSpaceOfRun(w[1..]);
    }
  }

  /** Splitting loses no character but white space: the words, written together, are the non-space text. */
  lemma {:induction false} WordsKeepText(s: seq<char>)
    ensures Concat(Words(s)) == NonSpace(s)
    decreases |s|
  {
    if s != [] {
      if IsSpace(s[0]) {
        WordsKeepText(s[1..]);
      } else {
        var n := WordLen(s);
        WordLenRuns(s);
        WordsKeepText(s[n..]);
        ConcatAppend([s[..n]], Words(s[n..]));
        assert Concat([s[..n]]) == s[..n];
        NonSpaceOfRun(s[..n]);
        assert s == s[..n] + s[n..];
        NonSpaceAppend(s[..n], s[n..]);
      }
    }
  }

  /** A word followed by white space or nothing is the first word. */
  lemma WordsCons(w: seq<char>, rest: seq<char>)
    requires IsWord(w) && (rest == [] || IsSpace(rest[0]))
    ensures Words(w + rest) == [w] + Words(rest)
  {
    var u := w + rest;
    assert forall m :: 0 <= m < |w| ==> u[m] == w[m] && w[m] in w;
    WordLenIs(u, |w|);
    assert u[..|w|] == w;
    assert u[|w|..] == rest;
  }

  /** Words written with single spaces between them split back into the same words. */
  lemma {:induction false} WordsOfJoin(ws: seq<seq<char>>)
    requires forall k :: 0 <= k < |ws| ==> IsWord(ws[k])
    ensures Words(JoinSpaced(ws)) == ws
  {
    if |ws| == 1 {
      WordsCons(ws[0], []);
      assert ws[0] + [] == ws[0];
    } else if |ws| > 1 {
      var j := JoinSpaced(ws[1..]);
      var sp := [' '] + j;
      assert JoinSpaced(ws) == ws[0] + sp;
      WordsCons(ws[0], sp);
      assert sp[0] == ' ' && sp[1..] == j;
      assert Words(sp) == Words(j);
      WordsOfJoin(ws[1..]);
      assert ws == [ws[0]] + ws[1..];
    }
  }

  /** White space at `i` contributes no word. */
  lemma SpaceStep(line: seq<char>, i: nat)
    requires i < |line| && IsSpace(line[i])
    ensures Words(line[i..]) == Words(line[i + 1..])
  {
    assert line[i..][1..] == line[i + 1..];
  }

  /** A maximal non-space run from `i` to `j` is the next word. */
  lemma WordStep(line: seq<char>, i: nat, j: nat)
    requires i < j <= |line| && (j == |line| || IsSpace(line[j]))
    requires forall m :: i <= m < j ==> !IsSpace(line[m])
    ensures Words(line[i..]) == [line[i..j]] + Words(line[j..])
  {
    var u := line[i..];
    WordLenIs(u, j - i);
    assert u[..j - i] == line[i..j];
    assert u[j - i..] == line[j..];
  }

  /**
   * One word extraction from the stream positioned at `i`: it skips white
   * space; at the end of the stream it fails, otherwise it reads characters
   * up to the next white space or the end. It succeeds exactly when a word
   * is left, and the word it reads is the next one.
   */
  method Extract(line: seq<char>, i: nat) returns (found: bool, word: seq<char>, next: nat)
    requires i <= |line|
    ensures i <= next <= |line|
    ensures found <==> Words(line[i..]) != []
    ensures found ==> i < next && Words(line[i..]) == [word] + Words(line[next..])
    ensures !found ==> next == |line|
  {
    next := i;
    while next < |line| && IsSpace(line[next])
      invariant i <= next <= |line| && Words(line[next..]) == Words(line[i..])
    {
      SpaceStep(line, next);
      next := next + 1;
    }
    if next == |line| {
      assert line[next..] == [];
      return false, [], next;
    }
    var start := next;
    while next < |line| && !IsSpace(line[next])
      invariant start <= next <= |line|
      invariant forall m :: start <= m < next ==> !IsSpace(line[m])
    {
      next := next + 1;
    }
    WordStep(line, start, next);
    found, word := true, line[start..next];
  }

  /** Repeated extraction until it fails: the words of `line`, in order. */
  method TokenizeSafe(line: seq<char>) returns (tokens: seq<seq<char>>)
    ensures tokens == Words(line)
    ensures forall k :: 0 <= k < |tokens| ==> IsWord(tokens[k])
  {
    tokens := [];
    var i := 0;
    while true
      invariant i <= |line| && tokens + Words(line[i..]) == Words(line)
      decreases |line| - i
    {
      var found, word, next := Extract(line, i);
      if !found {
        break;
      }
      tokens := tokens + [word];
      i := next;
    }
    WordsAreWords(line);
  }
}
