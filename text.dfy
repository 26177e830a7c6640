/**
 * ASCII text primitives shared by the naming code: the character range the
 * model covers, JavaScript's `toLowerCase` and `\s` restricted to that range,
 * and `String.prototype.split` / `Array.prototype.join` on a one-character
 * separator.
 */
module Text {

  /** A character of the ASCII range, U+0000 to U+007F. */
  type Ascii = c: char | c as int < 128 witness 'a'

  /** A string of ASCII characters. */
  type AStr = seq<Ascii>

  predicate IsUpper(c: char) { 'A' <= c <= 'Z' }

  /** JavaScript's `\s` on ASCII: tab, line feed, vertical tab, form feed, carriage return and space. */
  predicate IsSpace(c: char) { c == ' ' || '\t' <= c <= '\r' }

  /** `toLowerCase` on one ASCII character: only `A`-`Z` change. */
  function LowerChar(c: Ascii): (d: Ascii)
    ensures !IsUpper(d)
    ensures !IsUpper(c) ==> d == c
    ensures IsUpper(c) ==> 'a' <= d <= 'z' && d as int - c as int == 32
  {
    if IsUpper(c) then (c as int + 32) as char else c
  }

  predicate IsLowerCase(s: seq<char>) {
    forall i :: 0 <= i < |s| ==> !IsUpper(s[i])
  }

  /** `String.prototype.toLowerCase` on an ASCII string. */
  function Lower(s: AStr): (r: AStr)
    ensures |r| == |s|
    ensures forall i :: 0 <= i < |s| ==> r[i] == LowerChar(s[i])
    ensures IsLowerCase(r)
    ensures IsLowerCase(s) ==> r == s
  {
    seq(|s|, i requires 0 <= i < |s| => LowerChar(s[i]))
  }

  /** Lower-casing once is enough. */
  lemma {:induction false} LowerIdempotent(s: AStr)
    ensures Lower(Lower(s)) == Lower(s)
  {
  }

  /** Lower-casing works character by character, so it distributes over concatenation. */
  lemma LowerConcat(x: AStr, y: AStr)
    ensures Lower(x + y) == Lower(x) + Lower(y)
  {
    assert forall i :: 0 <= i < |x + y| ==> Lower(x + y)[i] == (Lower(x) + Lower(y))[i];
  }

  /** The position of the first `sep` in `s`, or `|s|` when there is none. */
  function IndexOf(s: AStr, sep: Ascii): (i: nat)
    ensures i <= |s|
  {
    if |s| == 0 || s[0] == sep then 0 else 1 + IndexOf(s[1..], sep)
  }

  /** `IndexOf` stops at a separator, or at the end, and passes none on the way. */
  lemma {:induction false} IndexOfFinds(s: AStr, sep: Ascii)
    ensures sep !in s[..IndexOf(s, sep)]
    ensures IndexOf(s, sep) < |s| ==> s[IndexOf(s, sep)] == sep
  {
    if |s| > 0 && s[0] != sep {
      IndexOfFinds(s[1..], sep);
      assert s[..IndexOf(s, sep)] == [s[0]] + s[1..][..IndexOf(s[1..], sep)];
    }
  }

  /** The first occurrence is where `IndexOf` stops. */
  lemma IndexOfIsFirst(s: AStr, k: nat, sep: Ascii)
    requires k < |s| && s[k] == sep && sep !in s[..k]
    ensures IndexOf(s, sep) == k
  {
    IndexOfFinds(s, sep);
  }

  /** `s.split(sep)`: the pieces between separators, always at least one. */
  function Split(s: AStr, sep: Ascii): (parts: seq<AStr>)
    ensures |parts| >= 1
    decreases |s|
  {
    var i := IndexOf(s, sep);
    if i == |s| then [s] else [s[..i]] + Split(s[i + 1..], sep)
  }

  /** `parts.join(sep)`. */
  function Join(parts: seq<AStr>, sep: Ascii): AStr
  {
    if |parts| == 0 then []
    else if |parts| == 1 then parts[0]
    else parts[0] + [sep] + Join(parts[1..], sep)
  }

  /** `p` is the part of `s` after its last `sep` (all of `s` when there is none). */
  predicate IsLastPiece(p: AStr, s: AStr, sep: Ascii) {
    && sep !in p
    && |p| <= |s|
    && s[|s| - |p|..] == p
    && (|p| < |s| ==> s[|s| - |p| - 1] == sep)
  }

  /** At most one piece of `s` is the part after its last separator. */
  lemma LastPieceUnique(p: AStr, q: AStr, s: AStr, sep: Ascii)
    requires IsLastPiece(p, s, sep) && IsLastPiece(q, s, sep)
    ensures p == q
  {
  }

  /** `s.split(sep).pop()`: what follows the last separator. */
  function LastPiece(s: AStr, sep: Ascii): AStr
    decreases |s|
  {
    var i := IndexOf(s, sep);
    if i == |s| then s else LastPiece(s[i + 1..], sep)
  }

  /** The last piece is what follows the last separator, and holds none. */
  lemma {:induction false} LastPieceIsLast(s: AStr, sep: Ascii)
    ensures IsLastPiece(LastPiece(s, sep), s, sep)
    decreases |s|
  {
    IndexOfFinds(s, sep);
    var i := IndexOf(s, sep);
    if i == |s| {
      assert s[..i] == s;
      assert LastPiece(s, sep) == s;
    } else {
      var p := LastPiece(s[i + 1..], sep);
      assert LastPiece(s, sep) == p;
      LastPieceIsLast(s[i + 1..], sep);
      LastPieceAfterSep(p, s, i, sep);
    }
  }

  /** No piece of a split holds the separator. */
  lemma {:induction false} SplitPieces(s: AStr, sep: Ascii)
    ensures forall k :: 0 <= k < |Split(s, sep)| ==> sep !in Split(s, sep)[k]
    decreases |s|
  {
    IndexOfFinds(s, sep);
    var i := IndexOf(s, sep);
    if i < |s| {
      SplitPieces(s[i + 1..], sep);
    } else {
      assert s[..i] == s;
    }
  }

  /** The last piece of a split is what follows the last separator. */
  lemma {:induction false} SplitLast(s: AStr, sep: Ascii)
    ensures var parts := Split(s, sep); parts[|parts| - 1] == LastPiece(s, sep)
    decreases |s|
  {
    var i := IndexOf(s, sep);
    if i < |s| {
      var t := s[i + 1..];
      SplitLast(t, sep);
      var parts, rest := Split(s, sep), Split(t, sep);
      assert parts == [s[..i]] + rest;
      assert parts[|parts| - 1] == rest[|rest| - 1];
      assert LastPiece(s, sep) == LastPiece(t, sep);
    } else {
      assert Split(s, sep) == [s];
      assert LastPiece(s, sep) == s;
    }
  }

  /** The last piece of what follows a separator is the last piece of the whole. */
  lemma LastPieceAfterSep(p: AStr, s: AStr, i: nat, sep: Ascii)
    requires i < |s| && s[i] == sep
    requires IsLastPiece(p, s[i + 1..], sep)
    ensures IsLastPiece(p, s, sep)
  {
    var t := s[i + 1..];
    assert s[|s| - |p|..] == t[|t| - |p|..];
    if |p| < |t| {
      assert s[|s| - |p| - 1] == t[|t| - |p| - 1];
    }
  }

  /** A string without the separator is a single piece. */
  lemma SplitNoSep(s: AStr, sep: Ascii)
    requires sep !in s
    ensures Split(s, sep) == [s]
  {
    IndexOfFinds(s, sep);
  }

  /** A separator-free piece followed by a separator splits off as the first piece. */
  lemma SplitAfterPiece(a: AStr, b: AStr, sep: Ascii)
    requires sep !in a
    ensures Split(a + [sep] + b, sep) == [a] + Split(b, sep)
  {
    var s := a + [sep] + b;
    assert s[..|a|] == a;
    IndexOfIsFirst(s, |a|, sep);
    assert s[|a| + 1..] == b;
  }

  /** Separator-free pieces joined and followed by a separator split off as those pieces. */
  lemma {:induction false} SplitAfterPieces(prefix: seq<AStr>, tail: AStr, sep: Ascii)
    requires |prefix| >= 1
    requires forall k :: 0 <= k < |prefix| ==> sep !in prefix[k]
    ensures Split(Join(prefix, sep) + [sep] + tail, sep) == prefix + Split(tail, sep)
    decreases |prefix|
  {
    if |prefix| == 1 {
      assert Join(prefix, sep) == prefix[0];
      SplitAfterPiece(prefix[0], tail, sep);
      assert prefix == [prefix[0]];
    } else {
      SplitAfterPieces(prefix[1..], tail, sep);
      SplitAfterPiecesStep(prefix, tail, sep);
    }
  }

  lemma SplitAfterPiecesStep(prefix: seq<AStr>, tail: AStr, sep: Ascii)
    requires |prefix| >= 2 && sep !in prefix[0]
    requires Split(Join(prefix[1..], sep) + [sep] + tail, sep) == prefix[1..] + Split(tail, sep)
    ensures Split(Join(prefix, sep) + [sep] + tail, sep) == prefix + Split(tail, sep)
  {
    var r := Join(prefix[1..], sep) + [sep] + tail;
    assert Join(prefix, sep) + [sep] + tail == prefix[0] + [sep] + r;
    SplitAfterPiece(prefix[0], r, sep);
    assert prefix == [prefix[0]] + prefix[1..];
  }

  /** Splitting at a separator between two strings splits each of them. */
  lemma {:induction false} SplitConcat(a: AStr, b: AStr, sep: Ascii)
    ensures Split(a + [sep] + b, sep) == Split(a, sep) + Split(b, sep)
    decreases |a|
  {
    IndexOfFinds(a, sep);
    var i := IndexOf(a, sep);
    if i == |a| {
      assert a[..i] == a;
      SplitAfterPiece(a, b, sep);
      SplitNoSep(a, sep);
    } else {
      var first, rest := a[..i], a[i + 1..];
      assert a == first + [sep] + rest;
      SplitConcat(rest, b, sep);
      SplitConcatStep(first, rest, b, sep);
    }
  }

  lemma SplitConcatStep(first: AStr, rest: AStr, b: AStr, sep: Ascii)
    requires sep !in first
    requires Split(rest + [sep] + b, sep) == Split(rest, sep) + Split(b, sep)
    ensures Split(first + [sep] + rest + [sep] + b, sep) == Split(first + [sep] + rest, sep) + Split(b, sep)
  {
    SplitAfterPiece(first, rest, sep);
    SplitAfterPiece(first, rest + [sep] + b, sep);
    assert first + [sep] + rest + [sep] + b == first + [sep] + (rest + [sep] + b);
    var x, y, z := [first], Split(rest, sep), Split(b, sep);
    assert x + (y + z) == (x + y) + z;
  }

  /** Joining the pieces of a split gives the string back. */
  lemma {:induction false} JoinSplit(s: AStr, sep: Ascii)
    ensures Join(Split(s, sep), sep) == s
    decreases |s|
  {
    IndexOfFinds(s, sep);
    var i := IndexOf(s, sep);
    if i < |s| {
      var t := s[i + 1..];
      JoinSplit(t, sep);
      var parts := Split(s, sep);
      assert parts[1..] == Split(t, sep);
      assert s == s[..i] + [sep] + t;
    } else {
      assert s[..i] == s;
    }
  }

  /** Splitting a join of separator-free pieces gives the pieces back. */
  lemma {:induction false} SplitJoin(parts: seq<AStr>, sep: Ascii)
    requires |parts| >= 1
    requires forall k :: 0 <= k < |parts| ==> sep !in parts[k]
    ensures Split(Join(parts, sep), sep) == parts
    decreases |parts|
  {
    if |parts| == 1 {
      SplitNoSep(parts[0], sep);
    } else {
      SplitJoin(parts[1..], sep);
      SplitAfterPiece(parts[0], Join(parts[1..], sep), sep);
      assert [parts[0]] + parts[1..] == parts;
    }
  }

  /** A character absent from every piece and different from the separator is absent from the join. */
  lemma {:induction false} JoinAvoids(parts: seq<AStr>, sep: Ascii, c: Ascii)
    requires c != sep
    requires forall k :: 0 <= k < |parts| ==> c !in parts[k]
    ensures c !in Join(parts, sep)
    decreases |parts|
  {
    if |parts| > 1 {
      JoinAvoids(parts[1..], sep, c);
    }
  }

  /** Removes a leading run of `c` (the regular expression `^c+`). */
  function DropLeading(s: AStr, c: Ascii): AStr
    decreases |s|
  {
    if |s| > 0 && s[0] == c then DropLeading(s[1..], c) else s
  }

  /** What is left is a suffix not starting with `c`, and everything removed was `c`. */
  lemma {:induction false} DropLeadingSpec(s: AStr, c: Ascii)
    ensures var r := DropLeading(s, c);
      && |r| <= |s| && r == s[|s| - |r|..]
      && (forall i :: 0 <= i < |s| - |r| ==> s[i] == c)
      && (r == [] || r[0] != c)
    decreases |s|
  {
    if |s| > 0 && s[0] == c {
      var t := s[1..];
      DropLeadingSpec(t, c);
      var r := DropLeading(t, c);
      assert DropLeading(s, c) == r;
      assert t[|t| - |r|..] == s[|s| - |r|..];
      forall i | 0 <= i < |s| - |r|
        ensures s[i] == c
      {
        if i > 0 {
          assert s[i] == t[i - 1];
        }
      }
    } else {
      assert s[|s| - |s|..] == s;
    }
  }

  /** Removes a trailing run of `c` (the regular expression `c+$`). */
  function DropTrailing(s: AStr, c: Ascii): AStr
    decreases |s|
  {
    if |s| > 0 && s[|s| - 1] == c then DropTrailing(s[..|s| - 1], c) else s
  }

  /** What is left is a prefix not ending with `c`, and everything removed was `c`. */
  lemma {:induction false} DropTrailingSpec(s: AStr, c: Ascii)
    ensures var r := DropTrailing(s, c);
      && |r| <= |s| && r == s[..|r|]
      && (forall i :: |r| <= i < |s| ==> s[i] == c)
      && (r == [] || r[|r| - 1] != c)
    decreases |s|
  {
    if |s| > 0 && s[|s| - 1] == c {
      var t := s[..|s| - 1];
      DropTrailingSpec(t, c);
      var r := DropTrailing(t, c);
      assert DropTrailing(s, c) == r;
      assert t[..|r|] == s[..|r|];
    } else {
      assert s[..|s|] == s;
    }
  }
}
