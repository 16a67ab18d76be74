/**
 The Python string operations the AT-response decoder is built from:
 `str.rstrip(chars)`, `str.strip(chars)`, `str.rfind(sub)`, slicing past the
 end, `str.split(sep)` for a one-character separator, and `sep.join(parts)`.
 */
module Strings {

  /** `s.rstrip(chars)`: drop every trailing character that belongs to `chars`. */
  function StripTrailing(s: string, chars: set<char>): (r: string)
    ensures r <= s
    ensures r == [] || r[|r| - 1] !in chars
    ensures forall k :: |r| <= k < |s| ==> s[k] in chars
    decreases |s|
  {
    if |s| > 0 && s[|s| - 1] in chars then StripTrailing(s[..|s| - 1], chars) else s
  }

  /** `s.lstrip(chars)`: drop every leading character that belongs to `chars`. */
  function StripLeading(s: string, chars: set<char>): (r: string)
    ensures |r| <= |s| && r == s[|s| - |r|..]
    ensures r == [] || r[0] !in chars
    ensures forall k :: 0 <= k < |s| - |r| ==> s[k] in chars
    decreases |s|
  {
    if |s| > 0 && s[0] in chars then StripLeading(s[1..], chars) else s
  }

  /** Every character of `s` belongs to `chars`. */
  predicate AllIn(s: string, chars: set<char>)
  {
    forall k :: 0 <= k < |s| ==> s[k] in chars
  }

  /** `s.strip(chars)`: both ends. The result neither starts nor ends with a
      stripped character, and it is empty exactly when every character is one. */
  function Strip(s: string, chars: set<char>): (r: string)
    ensures |r| <= |s|
    ensures r != [] ==> r[0] !in chars && r[|r| - 1] !in chars
    ensures r == [] <==> AllIn(s, chars)
  {
    StripEnds(s, chars);
    StripLeading(StripTrailing(s, chars), chars)
  }

  lemma StripEnds(s: string, chars: set<char>)
    ensures var r := StripLeading(StripTrailing(s, chars), chars);
      && |r| <= |s|
      && (r != [] ==> r[0] !in chars && r[|r| - 1] !in chars)
      && (r == [] <==> AllIn(s, chars))
  {
    var t := StripTrailing(s, chars);
    var r := StripLeading(t, chars);
    if r != [] {
      assert r == t[|t| - |r|..];
      assert r[|r| - 1] == t[|t| - 1];
      assert s[|t| - 1] == t[|t| - 1];
    } else {
      forall k | 0 <= k < |s|
        ensures s[k] in chars
      {
        if k < |t| {
          assert s[k] == t[k];
        }
      }
    }
  }

  /** Stripped characters on both sides of a body that starts and ends with
      kept characters strip back to exactly the body. */
  lemma StripOf(head: string, body: string, tail: string, chars: set<char>)
    requires forall k :: 0 <= k < |head| ==> head[k] in chars
    requires forall k :: 0 <= k < |tail| ==> tail[k] in chars
    requires body != [] && body[0] !in chars && body[|body| - 1] !in chars
    ensures Strip(head + body + tail, chars) == body
  {
    StripTrailingOf(head + body, tail, chars);
    StripLeadingOf(head, body, chars);
  }

  /** Stripping a text whose tail is made of stripped characters, and whose
      body ends in a kept character, gives back exactly the body. */
  lemma {:induction false} StripTrailingOf(body: string, tail: string, chars: set<char>)
    requires body != [] && body[|body| - 1] !in chars
    requires forall k :: 0 <= k < |tail| ==> tail[k] in chars
    ensures StripTrailing(body + tail, chars) == body
    decreases |tail|
  {
    var s := body + tail;
    if tail == [] {
      assert s == body;
    } else {
      assert s[..|s| - 1] == body + tail[..|tail| - 1];
      StripTrailingOf(body, tail[..|tail| - 1], chars);
    }
  }

  /** Stripping a text that starts with stripped characters, followed by a
      body that starts with a kept character, gives back exactly the body. */
  lemma {:induction false} StripLeadingOf(head: string, body: string, chars: set<char>)
    requires forall k :: 0 <= k < |head| ==> head[k] in chars
    requires body != [] && body[0] !in chars
    ensures StripLeading(head + body, chars) == body
    decreases |head|
  {
    var s := head + body;
    if head == [] {
      assert s == body;
    } else {
      assert s[1..] == head[1..] + body;
      StripLeadingOf(head[1..], body, chars);
    }
  }

  /** Stripping twice strips nothing more. */
  lemma StripTrailingIdempotent(s: string, chars: set<char>)
    ensures StripTrailing(StripTrailing(s, chars), chars) == StripTrailing(s, chars)
  {
  }

  /** `sub` occurs in `s` starting at index `i`. */
  predicate OccursAt(s: string, sub: string, i: int)
  {
    0 <= i && i + |sub| <= |s| && s[i..i + |sub|] == sub
  }

  /** `s.rfind(sub)`: the highest index at which `sub` occurs, or -1. */
  function LastIndexOf(s: string, sub: string): (r: int)
    ensures r == -1 || OccursAt(s, sub, r)
    ensures forall j :: r < j ==> !OccursAt(s, sub, j)
    ensures r == -1 ==> |sub| > 0
  {
    if |sub| > |s| then -1 else LastIndexFrom(s, sub, |s| - |sub|)
  }

  /** Search for `sub` at `i`, `i - 1`, ..., `0`. */
  function LastIndexFrom(s: string, sub: string, i: int): (r: int)
    requires -1 <= i && i + |sub| <= |s|
    ensures -1 <= r <= i
    ensures r == -1 || OccursAt(s, sub, r)
    ensures forall j :: r < j <= i ==> !OccursAt(s, sub, j)
    decreases i + 1
  {
    if i < 0 then -1
    else if s[i..i + |sub|] == sub then i
    else LastIndexFrom(s, sub, i - 1)
  }

  /** `s[start:]` for a non-negative start: the characters from index `start`
      on, none once the start is past the end, and `s[:start] + s[start:] == s`. */
  function SliceFrom(s: string, start: nat): (r: string)
    ensures |r| == (if start <= |s| then |s| - start else 0)
    ensures forall k :: 0 <= k < |r| ==> r[k] == s[start + k]
    ensures start <= |s| ==> s[..start] + r == s
  {
    if start <= |s| then s[start..] else []
  }

  /** Number of occurrences of `c` in `s` (`s.count(c)`). */
  function Count(s: string, c: char): nat
  {
    if s == [] then 0 else (if s[0] == c then 1 else 0) + Count(s[1..], c)
  }

  /** `[sep].join(parts)`. */
  function Join(parts: seq<string>, sep: char): string
  {
    if |parts| == 0 then ""
    else if |parts| == 1 then parts[0]
    else parts[0] + [sep] + Join(parts[1..], sep)
  }

  /** `s.split(sep)`: the pieces between separators; never empty, and joining
      the pieces back with the separator gives `s`. */
  function Split(s: string, sep: char): (parts: seq<string>)
    ensures |parts| == Count(s, sep) + 1
    ensures forall k :: 0 <= k < |parts| ==> sep !in parts[k]
    ensures Join(parts, sep) == s
    decreases |s|
  {
    if s == [] then [""]
    else
      var rest := Split(s[1..], sep);
      if s[0] == sep then [""] + rest
      else [[s[0]] + rest[0]] + rest[1..]
  }

  /** Splitting a text that starts with a separator-free piece and a separator. */
  lemma {:induction false} SplitAfterPiece(piece: string, sep: char, t: string)
    requires sep !in piece
    ensures Split(piece + [sep] + t, sep) == [piece] + Split(t, sep)
    decreases |piece|
  {
    var s := piece + [sep] + t;
    if piece == [] {
      assert s[0] == sep && s[1..] == t;
    } else {
      assert s[0] == piece[0] && s[1..] == piece[1..] + [sep] + t;
      SplitAfterPiece(piece[1..], sep, t);
      assert [piece[0]] + piece[1..] == piece;
    }
  }

  /** A separator-free text is a single piece. */
  lemma {:induction false} SplitWhole(piece: string, sep: char)
    requires sep !in piece
    ensures Split(piece, sep) == [piece]
    decreases |piece|
  {
    if piece != [] {
      SplitWhole(piece[1..], sep);
      assert [piece[0]] + piece[1..] == piece;
    }
  }

  /** `split` undoes `join` when no piece holds the separator. */
  lemma {:induction false} SplitJoin(parts: seq<string>, sep: char)
    requires |parts| >= 1
    requires forall k :: 0 <= k < |parts| ==> sep !in parts[k]
    ensures Split(Join(parts, sep), sep) == parts
  {
    if |parts| == 1 {
      SplitWhole(parts[0], sep);
    } else {
      SplitJoin(parts[1..], sep);
      SplitAfterPiece(parts[0], sep, Join(parts[1..], sep));
      assert [parts[0]] + parts[1..] == parts;
    }
  }

  /** The joined text ends with the last piece. */
  lemma {:induction false} JoinEndsWithLast(parts: seq<string>, sep: char)
    requires |parts| >= 1
    ensures var j, last := Join(parts, sep), parts[|parts| - 1];
      |last| <= |j| && j[|j| - |last|..] == last
  {
    if |parts| > 1 {
      JoinEndsWithLast(parts[1..], sep);
    }
  }

  /** A character other than the separator is in the joined text only if it
      is in one of the pieces. */
  lemma {:induction false} NotInJoin(parts: seq<string>, sep: char, c: char)
    requires c != sep
    requires forall k :: 0 <= k < |parts| ==> c !in parts[k]
    ensures c !in Join(parts, sep)
  {
    if |parts| > 1 {
      NotInJoin(parts[1..], sep, c);
    }
  }
}
