/**
 * `PreProcess.Process`: drop `#` comments and turn every remaining newline
 * into a single space. The index `i` of the outer `for` loop is also
 * advanced by the inner comment-skipping `while`, and the character the
 * comment loop stops on is not checked for `#` again.
 *
 * The C# code indexes past the end of the input in one place: the
 * `input[i] == '\n'` test after the comment loop, reached with `i` at the
 * end when the comment has no newline or its newline is the last character.
 * There it raises `IndexOutOfRangeException`; here it gives
 * `Failure(IndexOutOfRange)`.
 */
module Preprocessing {
  import opened Wrappers

  datatype Fault = IndexOutOfRange

  /**
   * Where the comment loop leaves `i` when it starts on position `i`: just
   * past the first newline at or after `i`, or the end of the input.
   */
  function CommentEnd(s: string, i: nat): (j: nat)
    requires i < |s|
    ensures i < j <= |s|
    ensures forall k :: i <= k < j - 1 ==> s[k] != '\n'
    ensures j < |s| ==> s[j - 1] == '\n'
    ensures j == |s| || s[j - 1] == '\n'
    decreases |s| - i
  {
    if s[i] == '\n' || i + 1 == |s| then i + 1 else CommentEnd(s, i + 1)
  }

  /** Newlines become spaces; every other character stays. */
  function Spaced(s: string): (r: string)
    ensures |r| == |s| && '\n' !in r
    ensures forall k :: 0 <= k < |s| ==> r[k] == if s[k] == '\n' then ' ' else s[k]
  {
    if s == [] then [] else [if s[0] == '\n' then ' ' else s[0]] + Spaced(s[1..])
  }

  /** Put `p` in front of a successful result. */
  function Prefixed(p: string, r: Result<string, Fault>): Result<string, Fault>
  {
    if r.Success? then Success(p + r.value) else r
  }

  lemma PrefixedEmpty(r: Result<string, Fault>)
    ensures Prefixed("", r) == r
  {
    if r.Success? {
      assert "" + r.value == r.value;
    }
  }

  lemma PrefixedTwice(p: string, q: string, r: Result<string, Fault>)
    ensures Prefixed(p, Prefixed(q, r)) == Prefixed(p + q, r)
  {
    if r.Success? {
      assert p + (q + r.value) == (p + q) + r.value;
    }
  }

  /**
   * The output the loop produces from position `i` on: a character that is
   * not `#` is emitted (a newline as a space); a `#` first skips through
   * the next newline and then emits the character found there, unchecked.
   */
  function Process(s: string, i: nat): (r: Result<string, Fault>)
    requires i <= |s|
    ensures r.Success? ==> |r.value| <= |s| - i
    decreases |s| - i
  {
    if i == |s| then Success("")
    else
      var k := if s[i] == '#' then CommentEnd(s, i) else i;
      if k == |s| then Failure(IndexOutOfRange)
      else Prefixed([if s[k] == '\n' then ' ' else s[k]], Process(s, k + 1))
  }

  /** `PreProcess.Process`, step by step. */
  method Run(input: string) returns (r: Result<string, Fault>)
    ensures r == Process(input, 0)
  {
    var ret := "";
    var i := 0;
    PrefixedEmpty(Process(input, 0));
    while i < |input|
      invariant 0 <= i <= |input|
      invariant Process(input, 0) == Prefixed(ret, Process(input, i))
      decreases |input| - i
    {
      ghost var at := i;
      if input[i] == '#' {
        var stop := false;
        while !stop
          invariant at < i <= |input| || (i == at && !stop)
          invariant stop ==> i == CommentEnd(input, at)
          invariant !stop ==> i < |input| && CommentEnd(input, at) == CommentEnd(input, i)
          decreases |input| - i, !stop
        {
          var c := input[i];
          i := i + 1;
          stop := !(c != '\n' && i < |input|);
        }
      }
      if i >= |input| {
        assert Process(input, at).Failure?;
        return Failure(IndexOutOfRange);
      }
      PrefixedTwice(ret, [if input[i] == '\n' then ' ' else input[i]], Process(input, i + 1));
      if input[i] == '\n' {
        ret := ret + " ";
        i := i + 1;
        continue;
      }
      ret := ret + [input[i]];
      i := i + 1;
    }
    assert ret + "" == ret;
    r := Success(ret);
  }

  /** The output holds no newline and is never longer than the input. */
  lemma {:induction false} ProcessShape(s: string, i: nat)
    requires i <= |s| && Process(s, i).Success?
    ensures '\n' !in Process(s, i).value
    ensures |Process(s, i).value| <= |s| - i
    decreases |s| - i
  {
    if i < |s| {
      var k := if s[i] == '#' then CommentEnd(s, i) else i;
      ProcessShape(s, k + 1);
    }
  }

  /** Without a `#`, the input comes out with its newlines turned into spaces and nothing else changed. */
  lemma {:induction false} PlainText(s: string, i: nat)
    requires i <= |s| && forall k :: i <= k < |s| ==> s[k] != '#'
    ensures Process(s, i) == Success(Spaced(s[i..]))
    decreases |s| - i
  {
    if i < |s| {
      PlainText(s, i + 1);
      assert s[i..] == [s[i]] + s[i + 1..];
    }
  }

  /** Input with no `#` and no newline is returned unchanged. */
  lemma Unchanged(s: string)
    requires '#' !in s && '\n' !in s
    ensures Process(s, 0) == Success(s)
  {
    PlainText(s, 0);
    assert s[0..] == s;
    assert Spaced(s) == s;
  }

  /**
   * A `#` at `i` drops everything through the next newline, at `n`; the
   * character right after it is emitted whatever it is, even another `#`.
   */
  lemma CommentDropped(s: string, i: nat, n: nat)
    requires i < n && n + 1 < |s| && s[i] == '#' && s[n] == '\n' && s[n + 1] != '\n'
    requires forall k :: i <= k < n ==> s[k] != '\n'
    ensures Process(s, i) == Prefixed([s[n + 1]], Process(s, n + 2))
  {
    var j := CommentEnd(s, i);
    assert j == n + 1;
  }

  /** Two comment lines in a row: the second `#` and its text survive. */
  lemma SecondCommentKept()
    ensures Process("#a\n#b\nc", 0) == Success("#b c")
  {
    var s := "#a\n#b\nc";
    assert s[0] == '#' && s[1] == 'a' && s[2] == '\n' && s[3] == '#' && s[4] == 'b' && s[5] == '\n' && s[6] == 'c';
    assert Process(s, 7) == Success("");
    assert ['c'] + "" == "c" && [' '] + "c" == " c" && ['b'] + " c" == "b c" && ['#'] + "b c" == "#b c";
    assert Process(s, 6) == Success("c");
    assert Process(s, 5) == Success(" c");
    assert Process(s, 4) == Success("b c");
    CommentDropped(s, 0, 2);
  }

  /** Text before a `#`-free prefix is independent of it. */
  lemma {:induction false} PlainPrefix(p: string, q: string)
    requires '#' !in p
    ensures Process(p + q, 0) == Prefixed(Spaced(p), Process(p + q, |p|))
    decreases |p|
  {
    if p != [] {
      var s := p + q;
      assert s[0] == p[0] && p[0] != '#';
      assert Process(s, 0) == Prefixed([if p[0] == '\n' then ' ' else p[0]], Process(s, 1));
      assert Spaced(p) == [if p[0] == '\n' then ' ' else p[0]] + Spaced(p[1..]);
      PlainPrefix(p[1..], q);
      assert p[1..] + q == s[1..];
      Shift(s, 1, 0);
      Shift(s, 1, |p| - 1);
      PrefixedTwice([if p[0] == '\n' then ' ' else p[0]], Spaced(p[1..]), Process(s, |p|));
    } else {
      PrefixedEmpty(Process(p + q, 0));
    }
  }

  /** Processing a suffix from `j` is processing the whole from `d + j`. */
  lemma {:induction false} Shift(s: string, d: nat, j: nat)
    requires d + j <= |s|
    ensures Process(s[d..], j) == Process(s, d + j)
    decreases |s| - d - j
  {
    var u := s[d..];
    if j < |u| {
      assert u[j] == s[d + j];
      if s[d + j] == '#' {
        EndShift(s, d, j);
      }
      var k := if u[j] == '#' then CommentEnd(u, j) else j;
      if k < |u| {
        Shift(s, d, k + 1);
      }
    }
  }

  lemma {:induction false} EndShift(s: string, d: nat, j: nat)
    requires d + j < |s|
    ensures CommentEnd(s[d..], j) + d == CommentEnd(s, d + j)
    decreases |s| - d - j
  {
    var u := s[d..];
    assert u[j] == s[d + j];
    if !(u[j] == '\n' || j + 1 == |u|) {
      EndShift(s, d, j + 1);
    }
  }

  /**
   * A comment that runs to the end of the input, or whose newline is the
   * last character, fails: there is no character after it to read.
   */
  lemma CommentAtEnd(p: string, t: string)
    requires '#' !in p && '\n' !in t
    ensures Process(p + "#" + t, 0).Failure?
    ensures Process(p + "#" + t + "\n", 0).Failure?
  {
    var s1 := p + "#" + t;
    var s2 := p + "#" + t + "\n";
    PlainPrefix(p, "#" + t);
    PlainPrefix(p, "#" + t + "\n");
    assert p + ("#" + t) == s1 && p + ("#" + t + "\n") == s2;
    NoNewline(s1, |p|);
    NoNewline(s2, |p|);
  }

  lemma {:induction false} NoNewline(s: string, i: nat)
    requires i < |s| && forall k :: i <= k < |s| - 1 ==> s[k] != '\n'
    ensures CommentEnd(s, i) == |s|
    decreases |s| - i
  {
    if !(s[i] == '\n' || i + 1 == |s|) {
      NoNewline(s, i + 1);
    }
  }
}
