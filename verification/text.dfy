/** The Python string operations the driver's frame handling relies on:
    `startswith`, `rstrip()` (Python 2 byte strings, ASCII whitespace),
    `split('\n')` and `'\n'.join`, plus the accumulation of received frames
    each followed by a newline. */
module Text {
  import opened Outcomes

  predicate StartsWith(s: string, prefix: string) {
    |prefix| <= |s| && s[..|prefix|] == prefix
  }

  /** A common prefix does not change whether one text starts with another. */
  lemma StartsWithAfterPrefix(prefix: string, s: string, t: string)
    ensures StartsWith(prefix + s, prefix + t) <==> StartsWith(s, t)
  {
    if StartsWith(s, t) {
      assert (prefix + s)[..|prefix + t|] == prefix + s[..|t|];
    }
    if StartsWith(prefix + s, prefix + t) {
      assert s[..|t|] == (prefix + s)[..|prefix + t|][|prefix|..];
    }
  }

  /** The characters Python 2's `str.rstrip()` removes. */
  predicate IsSpace(c: char) {
    c == ' ' || c == '\t' || c == '\n' || c == '\r' || c == '\U{0B}' || c == '\U{0C}'
  }

  predicate AllSpace(s: string) {
    forall i :: 0 <= i < |s| ==> IsSpace(s[i])
  }

  /** `s.rstrip()`: the longest prefix of `s` that does not end in whitespace
      and whose removed tail is all whitespace. */
  function RStrip(s: string): (r: string)
    ensures |r| <= |s| && r == s[..|r|]
    ensures |r| == 0 || !IsSpace(r[|r| - 1])
    ensures AllSpace(s[|r|..])
    decreases |s|
  {
    if |s| > 0 && IsSpace(s[|s| - 1]) then
      var r := RStrip(s[..|s| - 1]);
      assert s[..|s| - 1][..|r|] == s[..|r|];
      assert s[|r|..] == s[..|s| - 1][|r|..] + [s[|s| - 1]];
      r
    else
      s
  }

  /** Stripping yields the empty string exactly when everything was whitespace. */
  lemma RStripEmptyIff(s: string)
    ensures RStrip(s) == "" <==> AllSpace(s)
  {
  }

  /** `s.find(c)` as an option: the first index holding `c`. */
  function IndexOf(s: string, c: char): (r: Option<nat>)
    ensures r.None? <==> c !in s
    ensures r.Some? ==> r.value < |s| && s[r.value] == c && c !in s[..r.value]
  {
    if |s| == 0 then None
    else if s[0] == c then Some(0)
    else
      match IndexOf(s[1..], c)
      case None => None
      case Some(k) =>
        assert s[..k + 1] == [s[0]] + s[1..][..k];
        Some(k + 1)
  }

  /** The first occurrence of `c` is the one after a prefix free of `c`. */
  lemma {:induction false} IndexOfAfter(t: string, c: char, tail: string)
    requires c !in t
    ensures IndexOf(t + [c] + tail, c) == Some(|t|)
    decreases |t|
  {
    var s := t + [c] + tail;
    if |t| > 0 {
      assert s[1..] == t[1..] + [c] + tail;
      IndexOfAfter(t[1..], c, tail);
      assert s[0] == t[0];
    } else {
      assert s[0] == c;
    }
  }

  /** `s.split(sep)` with an explicit separator: never empty, and no piece
      contains the separator. */
  function Split(s: string, sep: char): (r: seq<string>)
    ensures |r| >= 1
    ensures forall k :: 0 <= k < |r| ==> sep !in r[k]
    decreases |s|
  {
    if |s| == 0 then [""]
    else
      var rest := Split(s[1..], sep);
      if s[0] == sep then [""] + rest
      else [[s[0]] + rest[0]] + rest[1..]
  }

  /** `sep.join(parts)`. */
  function Join(parts: seq<string>, sep: char): string
  {
    if |parts| == 0 then ""
    else if |parts| == 1 then parts[0]
    else parts[0] + [sep] + Join(parts[1..], sep)
  }

  /** The text accumulated by appending every frame followed by a newline. */
  function JoinLines(frames: seq<string>): string
  {
    if |frames| == 0 then "" else frames[0] + "\n" + JoinLines(frames[1..])
  }

  /** Joining the pieces of a split gives back the original text. */
  lemma {:induction false} JoinSplit(s: string, sep: char)
    ensures Join(Split(s, sep), sep) == s
    decreases |s|
  {
    if |s| > 0 {
      var rest := Split(s[1..], sep);
      JoinSplit(s[1..], sep);
      if s[0] == sep {
        assert Join([""] + rest, sep) == "" + [sep] + Join(rest, sep) by {
          assert ([""] + rest)[1..] == rest;
        }
        assert s == [s[0]] + s[1..];
      } else if |rest| == 1 {
        assert s == [s[0]] + s[1..];
      } else {
        var parts := [[s[0]] + rest[0]] + rest[1..];
        assert parts[1..] == rest[1..];
        assert Join(rest, sep) == rest[0] + [sep] + Join(rest[1..], sep);
        assert s == [s[0]] + s[1..];
      }
    }
  }

  lemma {:induction false} SplitWithoutSep(p: string, sep: char)
    requires sep !in p
    ensures Split(p, sep) == [p]
    decreases |p|
  {
    if |p| > 0 {
      SplitWithoutSep(p[1..], sep);
      assert p == [p[0]] + p[1..];
    }
  }

  lemma {:induction false} SplitCons(p: string, sep: char, t: string)
    requires sep !in p
    ensures Split(p + [sep] + t, sep) == [p] + Split(t, sep)
    decreases |p|
  {
    var s := p + [sep] + t;
    if |p| == 0 {
      assert s[1..] == t;
    } else {
      assert s[1..] == p[1..] + [sep] + t;
      SplitCons(p[1..], sep, t);
      assert [p[0]] + p[1..] == p;
    }
  }

  /** Splitting a join gives back the pieces, provided none holds the separator. */
  lemma {:induction false} SplitJoin(parts: seq<string>, sep: char)
    requires |parts| >= 1
    requires forall k :: 0 <= k < |parts| ==> sep !in parts[k]
    ensures Split(Join(parts, sep), sep) == parts
    decreases |parts|
  {
    if |parts| == 1 {
      SplitWithoutSep(parts[0], sep);
    } else {
      SplitJoin(parts[1..], sep);
      SplitCons(parts[0], sep, Join(parts[1..], sep));
      assert [parts[0]] + parts[1..] == parts;
    }
  }

  lemma {:induction false} JoinLinesIsJoin(frames: seq<string>)
    requires |frames| >= 1
    ensures JoinLines(frames) == Join(frames, '\n') + "\n"
    decreases |frames|
  {
    if |frames| > 1 {
      JoinLinesIsJoin(frames[1..]);
    }
  }

  lemma {:induction false} JoinEndsWithLast(parts: seq<string>, sep: char)
    requires |parts| >= 1 && |parts[|parts| - 1]| >= 1
    ensures |Join(parts, sep)| >= 1
    ensures Join(parts, sep)[|Join(parts, sep)| - 1] == parts[|parts| - 1][|parts[|parts| - 1]| - 1]
    decreases |parts|
  {
    if |parts| > 1 {
      JoinEndsWithLast(parts[1..], sep);
    }
  }

  /** The accumulated text is all whitespace exactly when every frame is. */
  lemma {:induction false} JoinLinesAllSpace(frames: seq<string>)
    ensures AllSpace(JoinLines(frames)) <==> forall k :: 0 <= k < |frames| ==> AllSpace(frames[k])
    decreases |frames|
  {
    if |frames| > 0 {
      JoinLinesAllSpace(frames[1..]);
      var f := frames[0];
      var rest := JoinLines(frames[1..]);
      var s := JoinLines(frames);
      assert s == f + "\n" + rest;
      if AllSpace(s) {
        assert forall i :: 0 <= i < |f| ==> f[i] == s[i];
        assert forall i :: 0 <= i < |rest| ==> rest[i] == s[|f| + 1 + i];
        assert forall k :: 1 <= k < |frames| ==> frames[k] == frames[1..][k - 1];
      }
      if forall k :: 0 <= k < |frames| ==> AllSpace(frames[k]) {
        assert forall k :: 0 <= k < |frames[1..]| ==> frames[1..][k] == frames[k + 1];
        assert AllSpace(f) && AllSpace(rest);
        forall i | 0 <= i < |s|
          ensures IsSpace(s[i])
        {
          if i < |f| {
            assert s[i] == f[i];
          } else if i > |f| {
            assert s[i] == rest[i - |f| - 1];
          }
        }
      }
    }
  }

  /** A batch is cleanly framed when no frame holds a newline and the last
      frame ends in a character `rstrip` keeps. */
  predicate CleanlyFramed(frames: seq<string>) {
    && |frames| >= 1
    && (forall k :: 0 <= k < |frames| ==> '\n' !in frames[k])
    && |frames[|frames| - 1]| >= 1
    && !IsSpace(frames[|frames| - 1][|frames[|frames| - 1]| - 1])
  }

  /** Appending a newline to every frame, stripping trailing whitespace and
      splitting on newlines gives back the frames of a cleanly framed batch. */
  lemma FramesRoundTrip(frames: seq<string>)
    requires CleanlyFramed(frames)
    ensures Split(RStrip(JoinLines(frames)), '\n') == frames
  {
    var j := Join(frames, '\n');
    JoinLinesIsJoin(frames);
    JoinEndsWithLast(frames, '\n');
    assert (j + "\n")[..|j|] == j;
    assert RStrip(j + "\n") == j;
    SplitJoin(frames, '\n');
  }
}
