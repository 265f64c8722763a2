/** Bytes, newlines and the line structure of a byte stream.

    The server treats everything it receives as opaque bytes; the only byte
    with a meaning is the line terminator '\n'. This module fixes the
    buffer capacity of the receive loop and defines, once, the notions the
    rest of the model states its properties in: the first newline of a
    buffer (memchr), the unterminated tail of a stream, and the sequence of
    newline-terminated prefixes of a stream (one per reply the server owes).
 */
module Bytes {

  type byte = bv8
  type Bytes = seq<byte>

  /** The line terminator '\n'. */
  const NL: byte := 0x0A

  /** MAX_RECV_BUF_LEN: capacity of the receive buffer and size of one read-back chunk. */
  const MAX_RECV_BUF_LEN: nat := 4096

  /** What memchr finds: no newline, or the position of the first one. */
  datatype Search = NoNewline | NewlineAt(pos: nat)

  function Min(a: nat, b: nat): (m: nat)
    ensures m <= a && m <= b && (m == a || m == b)
  {
    if a <= b then a else b
  }

  /** Concatenation of a sequence of byte strings, in order. */
  function Flatten(chunks: seq<Bytes>): Bytes
    decreases |chunks|
  {
    if |chunks| == 0 then [] else chunks[0] + Flatten(chunks[1..])
  }

  /** memchr(s, '\n', |s|): the position of the first newline of `s`, if there is one. */
  function FindNewline(s: Bytes): (r: Search)
    ensures r.NoNewline? <==> NL !in s
    ensures r.NewlineAt? ==> r.pos < |s| && s[r.pos] == NL && NL !in s[..r.pos]
    decreases |s|
  {
    if |s| == 0 then NoNewline
    else if s[0] == NL then NewlineAt(0)
    else
      match FindNewline(s[1..])
      case NoNewline => NoNewline
      case NewlineAt(i) =>
        assert s[..i + 1] == [s[0]] + s[1..][..i];
        NewlineAt(i + 1)
  }

  /** What a successful search tells about the position it found. */
  lemma FoundAt(s: Bytes, i: nat)
    requires FindNewline(s) == NewlineAt(i)
    ensures i < |s| && s[i] == NL && NL !in s[..i]
  {
  }

  /** Number of bytes after the last newline of `s` (all of `s` when it has none). */
  function TailLen(s: Bytes): (n: nat)
    ensures n <= |s|
    ensures NL !in s[|s| - n..]
    ensures n < |s| ==> s[|s| - n - 1] == NL
    decreases |s|
  {
    if |s| == 0 then 0
    else if s[|s| - 1] == NL then 0
    else
      var m := TailLen(s[..|s| - 1]);
      TailGrows(s, m);
      m + 1
  }

  /** A newline-free end of all but the last byte stays newline-free with a last byte
      that is not a newline. */
  lemma TailGrows(s: Bytes, m: nat)
    requires m < |s| && s[|s| - 1] != NL
    requires NL !in s[..|s| - 1][|s| - 1 - m..]
    ensures NL !in s[|s| - (m + 1)..]
  {
    assert s[|s| - (m + 1)..] == s[..|s| - 1][|s| - 1 - m..] + [s[|s| - 1]];
  }

  /** The tail is determined by where the last newline sits: if `s[k..]` has no
      newline and `k` is 0 or just after a newline, the tail is `s[k..]`. */
  lemma TailLenAt(s: Bytes, k: nat)
    requires k <= |s|
    requires NL !in s[k..]
    requires k == 0 || s[k - 1] == NL
    ensures TailLen(s) == |s| - k
  {
    var j := |s| - TailLen(s);
    NoNewlineBefore(s, j, k);
    NoNewlineBefore(s, k, j);
  }

  /** A newline-free end `s[x..]` cannot start after a newline at `y - 1` with `x < y`. */
  lemma NoNewlineBefore(s: Bytes, x: nat, y: nat)
    requires x <= |s| && y <= |s| && NL !in s[x..]
    ensures x < y ==> s[y - 1] != NL
  {
    if x < y {
      assert s[x..][y - 1 - x] == s[y - 1];
    }
  }

  /** Appending bytes moves the tail: a newline in the new bytes starts a new tail,
      otherwise the old tail grows by the new bytes. */
  lemma TailLenAppend(a: Bytes, d: Bytes)
    ensures TailLen(a + d) == if NL in d then TailLen(d) else TailLen(a) + |d|
  {
    if NL in d {
      TailInAppended(a, d);
    } else {
      TailAcrossAppend(a, d);
    }
  }

  lemma TailInAppended(a: Bytes, d: Bytes)
    requires NL in d
    ensures TailLen(a + d) == TailLen(d)
  {
    var s := a + d;
    var t := TailLen(d);
    assert d[0..] == d;
    assert t < |d|;
    assert s[|s| - t..] == d[|d| - t..];
    assert s[|s| - t - 1] == d[|d| - t - 1];
    TailLenAt(s, |s| - t);
  }

  lemma TailAcrossAppend(a: Bytes, d: Bytes)
    requires NL !in d
    ensures TailLen(a + d) == TailLen(a) + |d|
  {
    var s := a + d;
    var k := |a| - TailLen(a);
    assert s[k..] == a[k..] + d;
    if 0 < k {
      assert s[k - 1] == a[k - 1];
    }
    TailLenAt(s, k);
  }

  /** `p + x` for every `x` of `xs`, in order. */
  function PrependAll(p: Bytes, xs: seq<Bytes>): (r: seq<Bytes>)
    ensures |r| == |xs|
    ensures forall k :: 0 <= k < |xs| ==> r[k] == p + xs[k]
  {
    seq(|xs|, k requires 0 <= k < |xs| => p + xs[k])
  }

  lemma PrependAllConcat(p: Bytes, xs: seq<Bytes>, ys: seq<Bytes>)
    ensures PrependAll(p, xs + ys) == PrependAll(p, xs) + PrependAll(p, ys)
  {
  }

  lemma PrependAllTwice(p: Bytes, q: Bytes, xs: seq<Bytes>)
    ensures PrependAll(p, PrependAll(q, xs)) == PrependAll(p + q, xs)
  {
    forall k | 0 <= k < |xs|
      ensures PrependAll(p, PrependAll(q, xs))[k] == PrependAll(p + q, xs)[k]
    {
      assert p + (q + xs[k]) == (p + q) + xs[k];
    }
  }

  /** Number of newline bytes in `s`, counted from the front. */
  function NewlineCount(s: Bytes): nat
    decreases |s|
  {
    if |s| == 0 then 0 else (if s[0] == NL then 1 else 0) + NewlineCount(s[1..])
  }

  lemma {:induction false} NewlineCountAppend(a: Bytes, b: Bytes)
    ensures NewlineCount(a + b) == NewlineCount(a) + NewlineCount(b)
    decreases |a|
  {
    if |a| > 0 {
      assert (a + b)[1..] == a[1..] + b;
      NewlineCountAppend(a[1..], b);
    } else {
      assert a + b == b;
    }
  }

  /** The newline-terminated prefixes of `s`, shortest first: for a stream of
      lines, the stream as it stood each time one more line was complete. */
  function LinePrefixes(s: Bytes): (r: seq<Bytes>)
    decreases |s|
  {
    if |s| == 0 then []
    else LinePrefixes(s[..|s| - 1]) + (if s[|s| - 1] == NL then [s] else [])
  }

  /** There are as many line prefixes as newlines. */
  lemma {:induction false} LinePrefixesCount(s: Bytes)
    ensures |LinePrefixes(s)| == NewlineCount(s)
    decreases |s|
  {
    if |s| > 0 {
      var init, last := s[..|s| - 1], s[|s| - 1];
      LinePrefixesCount(init);
      assert s == init + [last];
      NewlineCountAppend(init, [last]);
      assert NewlineCount([last]) == if last == NL then 1 else 0;
    }
  }

  /** Independent characterisation: the members of `LinePrefixes(s)` are exactly
      the prefixes of `s` that end with a newline, listed by increasing length. */
  lemma {:induction false} LinePrefixesExactly(s: Bytes)
    ensures forall x :: x in LinePrefixes(s) <==> x <= s && |x| > 0 && x[|x| - 1] == NL
    ensures forall i, j :: 0 <= i < j < |LinePrefixes(s)| ==> |LinePrefixes(s)[i]| < |LinePrefixes(s)[j]|
    decreases |s|
  {
    if |s| > 0 {
      var init := s[..|s| - 1];
      LinePrefixesExactly(init);
      forall x | x <= s && |x| > 0 && x[|x| - 1] == NL
        ensures x in LinePrefixes(s)
      {
        if |x| < |s| {
          assert x <= init;
          assert x in LinePrefixes(init);
        } else {
          assert x == s;
        }
      }
      forall x | x in LinePrefixes(s)
        ensures x <= s
      {
        if x in LinePrefixes(init) {
          assert x <= init;
        }
      }
      forall x | x in LinePrefixes(init)
        ensures |x| < |s|
      {
        assert x <= init;
      }
    }
  }

  /** A byte string without newlines completes no line. */
  lemma NoLinePrefixes(s: Bytes)
    requires NL !in s
    ensures LinePrefixes(s) == []
    decreases |s|
  {
    if |s| > 0 {
      assert NL !in s[..|s| - 1];
      NoLinePrefixes(s[..|s| - 1]);
    }
  }

  /** The line prefixes of a concatenation: those of the front, then those of
      the back, each with the front put before it. */
  lemma {:induction false} LinePrefixesAppend(a: Bytes, b: Bytes)
    ensures LinePrefixes(a + b) == LinePrefixes(a) + PrependAll(a, LinePrefixes(b))
    decreases |b|
  {
    if |b| == 0 {
      assert a + b == a;
    } else {
      var b' := b[..|b| - 1];
      var last := b[|b| - 1];
      assert (a + b)[..|a + b| - 1] == a + b';
      LinePrefixesAppend(a, b');
      var extra: seq<Bytes> := if last == NL then [b] else [];
      assert LinePrefixes(b) == LinePrefixes(b') + extra;
      PrependAllConcat(a, LinePrefixes(b'), extra);
      assert PrependAll(a, extra) == if last == NL then [a + b] else [];
    }
  }

  /** Splitting off a stream's first line: the stream's line prefixes are that line,
      then the line prefixes of the rest with the line put before them. */
  lemma FirstLinePrefixes(p: Bytes, line: Bytes, rest: Bytes)
    requires |line| > 0 && line[|line| - 1] == NL
    requires NL !in line[..|line| - 1]
    ensures PrependAll(p, LinePrefixes(line + rest)) == [p + line] + PrependAll(p + line, LinePrefixes(rest))
  {
    LinePrefixesAppend(line, rest);
    SingleLine(line);
    PrependAllConcat(p, [line], PrependAll(line, LinePrefixes(rest)));
    PrependAllTwice(p, line, LinePrefixes(rest));
  }

  /** A single line (a newline after newline-free bytes) has itself as its only line prefix. */
  lemma SingleLine(line: Bytes)
    requires |line| > 0 && line[|line| - 1] == NL
    requires NL !in line[..|line| - 1]
    ensures LinePrefixes(line) == [line]
  {
    NoLinePrefixes(line[..|line| - 1]);
  }
}
