/**
 * The `WebDownloader` class: the folder names it derives from a page URL,
 * the resources it finds in a parsed page, and the sequential download of
 * those resources through the browser.
 */
module WebDownloader {
  import opened Text
  import opened Wrappers
  import opened Urls

  // ---------------------------------------------------------------------
  // sanitizeName
  // ---------------------------------------------------------------------

  /** The characters a file-system name may not hold: `<>:"/\|?*` and white space. */
  predicate IsInvalid(c: char) {
    c in "<>:\"/\\|?*" || IsSpace(c)
  }

  predicate NoDoubleUnderscore(s: seq<char>) {
    forall i :: 0 <= i < |s| - 1 ==> !(s[i] == '_' && s[i + 1] == '_')
  }

  /** What `sanitizeName` promises of its result. */
  predicate IsSanitized(s: seq<char>) {
    && (forall i :: 0 <= i < |s| ==> !IsInvalid(s[i]))
    && NoDoubleUnderscore(s)
    && (|s| > 0 ==> s[0] != '_' && s[|s| - 1] != '_')
    && IsLowerCase(s)
  }

  /** First step: every invalid character becomes `_`. */
  function ReplaceInvalid(s: AStr): (r: AStr)
    ensures |r| == |s|
    ensures forall i :: 0 <= i < |s| ==> r[i] == if IsInvalid(s[i]) then '_' else s[i]
  {
    seq(|s|, i requires 0 <= i < |s| => if IsInvalid(s[i]) then '_' else s[i])
  }

  /** Second step: every run of `_` becomes a single `_`. */
  function Collapse(s: AStr): AStr {
    if |s| <= 1 then s
    else if s[0] == '_' && s[1] == '_' then Collapse(s[1..])
    else [s[0]] + Collapse(s[1..])
  }

  /**
   * The collapsed string has no `__`, keeps the first and last characters,
   * adds no character, and leaves a string without `__` as it is.
   */
  lemma CollapseSpec(s: AStr)
    ensures var r := Collapse(s);
      && NoDoubleUnderscore(r)
      && |r| <= |s| && (|r| == 0 <==> |s| == 0)
      && (|s| > 0 ==> r[0] == s[0] && r[|r| - 1] == s[|s| - 1])
      && (forall c :: c in r ==> c in s)
      && (NoDoubleUnderscore(s) ==> r == s)
  {
    CollapseEnds(s);
    CollapseNoDouble(s);
    CollapseChars(s);
    if NoDoubleUnderscore(s) {
      CollapseKeeps(s);
    }
  }

  lemma {:induction false} CollapseEnds(s: AStr)
    ensures var r := Collapse(s);
      && |r| <= |s| && (|r| == 0 <==> |s| == 0)
      && (|s| > 0 ==> r[0] == s[0] && r[|r| - 1] == s[|s| - 1])
  {
    if |s| > 1 {
      CollapseEnds(s[1..]);
    }
  }

  lemma {:induction false} CollapseNoDouble(s: AStr)
    ensures NoDoubleUnderscore(Collapse(s))
  {
    if |s| > 1 {
      CollapseNoDouble(s[1..]);
      if !(s[0] == '_' && s[1] == '_') {
        var rest := Collapse(s[1..]);
        CollapseEnds(s[1..]);
        assert Collapse(s) == [s[0]] + rest;
      }
    }
  }

  lemma {:induction false} CollapseChars(s: AStr)
    ensures forall c :: c in Collapse(s) ==> c in s
  {
    if |s| > 1 {
      CollapseChars(s[1..]);
      assert forall c :: c in s[1..] ==> c in s;
    }
  }

  lemma {:induction false} CollapseKeeps(s: AStr)
    requires NoDoubleUnderscore(s)
    ensures Collapse(s) == s
  {
    if |s| > 1 {
      CollapseKeeps(s[1..]);
      assert s == [s[0]] + s[1..];
    }
  }

  /** Third step: one leading `_` and then one trailing `_` are removed. */
  function Trim(s: AStr): AStr {
    var front := if |s| > 0 && s[0] == '_' then s[1..] else s;
    if |front| > 0 && front[|front| - 1] == '_' then front[..|front| - 1] else front
  }

  /**
   * The input is the result with one `_` put back in front when the input
   * starts with `_`, and one at the back when what is left after that ends
   * with `_`. On a string without `__` the result neither starts nor ends
   * with `_`; no character is added, and a string with no `_` at either end
   * is kept.
   */
  lemma TrimSpec(s: AStr)
    ensures var r := Trim(s);
      var lead := |s| > 0 && s[0] == '_';
      var trail := |s| > (if lead then 1 else 0) && s[|s| - 1] == '_';
      && s == (if lead then "_" else []) + r + (if trail then "_" else [])
      && (NoDoubleUnderscore(s) ==> NoDoubleUnderscore(r) && (|r| > 0 ==> r[0] != '_' && r[|r| - 1] != '_'))
      && (forall c :: c in r ==> c in s)
      && ((|s| > 0 ==> s[0] != '_' && s[|s| - 1] != '_') ==> r == s)
  {
    var front := if |s| > 0 && s[0] == '_' then s[1..] else s;
    assert forall c :: c in front ==> c in s;
  }

  /** Trimming removes at most one `_` at each end of a string and keeps its middle. */
  lemma TrimWrapped(m: AStr, before: bool, after: bool)
    requires |m| > 0 ==> m[0] != '_' && m[|m| - 1] != '_'
    ensures Trim((if before then "_" else []) + m + (if after then "_" else [])) == m
  {
    var s := (if before then "_" else []) + m + (if after then "_" else []);
    var front := if before then s[1..] else s;
    assert front == m + (if after then "_" else []);
  }

  /** The replacement step leaves no invalid character. */
  lemma ReplaceInvalidClean(name: AStr)
    ensures forall c :: c in ReplaceInvalid(name) ==> !IsInvalid(c)
  {
  }

  /** `sanitizeName`: replace invalid characters, collapse `_` runs, trim one `_` at each end, lower-case. */
  function Sanitize(name: AStr): (r: AStr)
    ensures IsSanitized(r)
  {
    var collapsed := Collapse(ReplaceInvalid(name));
    ReplaceInvalidClean(name);
    CollapseSpec(ReplaceInvalid(name));
    var t := Trim(collapsed);
    TrimSpec(collapsed);
    LowerKeepsSanitized(t);
    Lower(t)
  }

  /** Lower-casing changes letters only, so it keeps every other property of a sanitised name. */
  lemma LowerKeepsSanitized(t: AStr)
    requires forall c :: c in t ==> !IsInvalid(c)
    requires NoDoubleUnderscore(t) && (|t| > 0 ==> t[0] != '_' && t[|t| - 1] != '_')
    ensures IsSanitized(Lower(t))
  {
    var r := Lower(t);
    forall i | 0 <= i < |t|
      ensures (r[i] == '_' <==> t[i] == '_') && (IsInvalid(r[i]) <==> IsInvalid(t[i]))
    {
      assert r[i] == LowerChar(t[i]);
    }
    assert forall i :: 0 <= i < |t| ==> t[i] in t;
  }

  /** A name is left unchanged exactly when it is already sanitised. */
  lemma SanitizeFixpoint(s: AStr)
    ensures Sanitize(s) == s <==> IsSanitized(s)
  {
    if IsSanitized(s) {
      assert ReplaceInvalid(s) == s;
      CollapseSpec(s);
      TrimSpec(s);
    }
  }

  /** Sanitising twice is sanitising once. */
  lemma SanitizeIdempotent(name: AStr)
    ensures Sanitize(Sanitize(name)) == Sanitize(name)
  {
    SanitizeFixpoint(Sanitize(name));
  }

  /** Every character of a sanitised name is `_` or the lower case of a character of the input. */
  lemma SanitizeKeepsCharacters(name: AStr)
    ensures forall c :: c in Sanitize(name) ==> c == '_' || exists d :: d in name && c == LowerChar(d)
  {
    var t := Trim(Collapse(ReplaceInvalid(name)));
    UnloweredCharacters(name);
    var r := Lower(t);
    assert Sanitize(name) == r;
    forall c | c in r && c != '_'
      ensures exists d :: d in name && c == LowerChar(d)
    {
      var i :| 0 <= i < |r| && r[i] == c;
      assert t[i] in t;
    }
  }

  /** Before lower-casing, every character is `_` or a character of the input. */
  lemma UnloweredCharacters(name: AStr)
    ensures forall c :: c in Trim(Collapse(ReplaceInvalid(name))) ==> c == '_' || c in name
  {
    var replaced := ReplaceInvalid(name);
    CollapseChars(replaced);
    TrimSpec(Collapse(replaced));
    forall c | c in replaced && c != '_'
      ensures c in name
    {
      var j :| 0 <= j < |name| && replaced[j] == c;
    }
  }

  /** A character that is not `_`, not a lower-case letter and not in the name is not in its sanitised form. */
  lemma SanitizeAvoids(name: AStr, c: char)
    requires c != '_' && !('a' <= c <= 'z') && c !in name
    ensures c !in Sanitize(name)
  {
    SanitizeKeepsCharacters(name);
    forall d: Ascii | d in name
      ensures LowerChar(d) != c
    {
    }
  }

  /** A sanitised name holds no `/`, since `/` is invalid. */
  lemma SanitizedHasNoSlash(s: seq<char>)
    requires IsSanitized(s)
    ensures '/' !in s
  {
  }

  /** `n` underscores. */
  function Underscores(n: nat): (r: AStr)
    ensures |r| == n && forall i :: 0 <= i < n ==> r[i] == '_'
  {
    seq(n, _ => '_')
  }

  predicate IsWord(a: AStr) {
    a != [] && forall i :: 0 <= i < |a| ==> !IsInvalid(a[i]) && a[i] != '_'
  }

  /** A gap between words: characters that the replacement step turns into `_`, or `_` itself. */
  predicate IsGap(g: AStr) {
    forall i :: 0 <= i < |g| ==> IsInvalid(g[i]) || g[i] == '_'
  }

  /** Words `w1 … wn` with the gaps `g1 … g(n-1)` between them: `w1 + g1 + w2 + … + wn`. */
  function Interleave(words: seq<AStr>, gaps: seq<AStr>): (s: AStr)
    requires |words| >= 1 && |gaps| == |words| - 1
    ensures |words[0]| <= |s| && s[..|words[0]|] == words[0]
    decreases |words|
  {
    if |words| == 1 then words[0] else words[0] + (gaps[0] + Interleave(words[1..], gaps[1..]))
  }

  /**
   * Words separated by non-empty gaps of white space, invalid characters or
   * underscores, with such a gap or nothing before and after them, become the
   * words joined by one `_`, in lower case: `Hello World` gives `hello_world`,
   * `File/With\Invalid:Chars` gives `file_with_invalid_chars`,
   * `  Multiple   Spaces  ` gives `multiple_spaces` and `_leading_trailing_`
   * gives `leading_trailing`.
   */
  lemma SanitizeWords(lead: AStr, words: seq<AStr>, gaps: seq<AStr>, trail: AStr)
    requires |words| >= 1 && |gaps| == |words| - 1
    requires forall k :: 0 <= k < |words| ==> IsWord(words[k])
    requires forall k :: 0 <= k < |gaps| ==> IsGap(gaps[k]) && gaps[k] != []
    requires IsGap(lead) && IsGap(trail)
    ensures Sanitize(lead + Interleave(words, gaps) + trail) == Lower(Join(words, '_'))
  {
    var body := Interleave(words, gaps) + trail;
    var x := lead + body;
    assert lead + Interleave(words, gaps) + trail == x;
    var core := Join(words, '_');
    var after: AStr := if |trail| > 0 then "_" else [];
    var collapsed := (if |lead| > 0 then "_" else []) + core + after;
    JoinWordsTidy(words);
    assert Collapse(ReplaceInvalid(x)) == collapsed by {
      ReplaceConcat(lead, body);
      ReplaceGap(lead);
      CollapseWords(words, gaps, trail);
      var rb := ReplaceInvalid(body);
      assert rb != [] && rb[0] != '_' by {
        assert rb[0] == body[0] == words[0][0];
        assert words[0][0] != '_' && !IsInvalid(words[0][0]);
      }
      CollapseLeading(Underscores(|lead|), rb);
    }
    TrimWrapped(core, |lead| > 0, |trail| > 0);
  }

  /** The replacement step works character by character. */
  lemma ReplaceConcat(x: AStr, y: AStr)
    ensures ReplaceInvalid(x + y) == ReplaceInvalid(x) + ReplaceInvalid(y)
  {
    assert forall i :: 0 <= i < |x + y| ==> ReplaceInvalid(x + y)[i] == (ReplaceInvalid(x) + ReplaceInvalid(y))[i];
  }

  /** A gap becomes underscores only. */
  lemma ReplaceGap(g: AStr)
    requires IsGap(g)
    ensures ReplaceInvalid(g) == Underscores(|g|)
  {
  }

  /** After the replacement, the collapse step leaves the words joined by one `_`, and one `_` for a trailing gap. */
  lemma {:induction false} CollapseWords(words: seq<AStr>, gaps: seq<AStr>, trail: AStr)
    requires |words| >= 1 && |gaps| == |words| - 1
    requires forall k :: 0 <= k < |words| ==> IsWord(words[k])
    requires forall k :: 0 <= k < |gaps| ==> IsGap(gaps[k]) && gaps[k] != []
    requires IsGap(trail)
    ensures Collapse(ReplaceInvalid(Interleave(words, gaps) + trail))
      == Join(words, '_') + (if |trail| > 0 then "_" else [])
    decreases |words|
  {
    var w := words[0];
    assert IsWord(w);
    assert ReplaceInvalid(w) == w;
    if |words| == 1 {
      assert Interleave(words, gaps) + trail == w + trail;
      ReplaceConcat(w, trail);
      ReplaceGap(trail);
      CollapseWord(w, Underscores(|trail|));
      CollapseRuns(Underscores(|trail|));
    } else {
      var g, rest := gaps[0], Interleave(words[1..], gaps[1..]) + trail;
      assert IsGap(g) && g != [];
      assert Interleave(words, gaps) + trail == w + (g + rest);
      ReplaceConcat(w, g + rest);
      ReplaceConcat(g, rest);
      ReplaceGap(g);
      var rr := ReplaceInvalid(rest);
      CollapseWord(w, Underscores(|g|) + rr);
      assert rr[0] != '_' by {
        var v := words[1];
        assert IsWord(v);
        assert rr[0] == rest[0] == v[0];
      }
      CollapseRun(|g|, rr);
      CollapseWords(words[1..], gaps[1..], trail);
      assert Join(words, '_') == w + "_" + Join(words[1..], '_');
    }
  }

  /** A run of underscores before a non-underscore collapses to one. */
  lemma {:induction false} CollapseRun(n: nat, x: AStr)
    requires n >= 1 && (x == [] || x[0] != '_')
    ensures Collapse(Underscores(n) + x) == "_" + Collapse(x)
  {
    var s := Underscores(n) + x;
    if n == 1 {
      if x == [] {
        assert s == "_";
      } else {
        assert s[1..] == x;
        assert Collapse(s) == [s[0]] + Collapse(s[1..]);
      }
    } else {
      assert s[1..] == Underscores(n - 1) + x;
      assert Collapse(s) == Collapse(s[1..]);
      CollapseRun(n - 1, x);
    }
  }

  /** A word is kept as it is. */
  lemma {:induction false} CollapseWord(a: AStr, y: AStr)
    requires '_' !in a
    ensures Collapse(a + y) == a + Collapse(y)
  {
    if a != [] {
      var s := a + y;
      assert s[0] == a[0] && a[0] != '_';
      if |s| > 1 {
        assert s[1..] == a[1..] + y;
        assert Collapse(s) == [s[0]] + Collapse(s[1..]);
        CollapseWord(a[1..], y);
        assert a == [a[0]] + a[1..];
      } else {
        assert s == a && y == [];
      }
    } else {
      assert a + y == y;
    }
  }

  /** Leading white space collapses to one underscore, or to nothing when there is none. */
  lemma CollapseLeading(us: AStr, x: AStr)
    requires forall i :: 0 <= i < |us| ==> us[i] == '_'
    requires x != [] && x[0] != '_'
    ensures Collapse(us + x) == (if |us| > 0 then "_" else []) + Collapse(x)
  {
    if |us| > 0 {
      assert us == Underscores(|us|);
      CollapseRun(|us|, x);
    } else {
      assert us + x == x;
    }
  }

  /** A run of underscores alone collapses to one, or stays empty. */
  lemma CollapseRuns(us: AStr)
    requires forall i :: 0 <= i < |us| ==> us[i] == '_'
    ensures Collapse(us) == if |us| > 0 then "_" else []
  {
    if |us| > 0 {
      assert us == Underscores(|us|) + [];
      CollapseRun(|us|, []);
    }
  }

  // ---------------------------------------------------------------------
  // getWebsiteRoot, getPathName, createFolderPath
  // ---------------------------------------------------------------------

  /** `.replace(/\.[^.]+$/, '')`: drops a final `.label` when the label is not empty. */
  function DropLastLabel(h: AStr): (r: AStr)
    ensures var last := LastPiece(h, '.');
      if last != [] && |last| < |h| then h == r + "." + last else r == h
  {
    var last := LastPiece(h, '.');
    LastPieceIsLast(h, '.');
    if last != [] && |last| < |h| then
      assert h == h[..|h| - |last| - 1] + "." + last;
      h[..|h| - |last| - 1]
    else h
  }

  /** The name `getWebsiteRoot` keeps of a parsed host name: sanitised, and without a dot. */
  function HostRoot(hostname: AStr): (root: AStr)
    ensures IsSanitized(root) && '.' !in root
  {
    var lastLabel := LastPiece(DropLastLabel(StripWww(hostname)), '.');
    LastPieceIsLast(DropLastLabel(StripWww(hostname)), '.');
    SanitizeAvoids(lastLabel, '.');
    Sanitize(lastLabel)
  }

  /** The name used when the URL does not parse. */
  const UnknownSite: AStr := "unknown_site"

  lemma UnknownSiteSanitized()
    ensures IsSanitized(UnknownSite) && '.' !in UnknownSite
  {
    var s := UnknownSite;
    assert |s| == 12 && s[7] == '_';
    assert forall i :: 0 <= i < |s| && i != 7 ==> 'a' <= s[i] <= 'z';
    TwoWordsSanitized(s, 7);
  }

  /** Lower-case letters with one inner `_` make a sanitised name without dots. */
  lemma TwoWordsSanitized(s: AStr, k: nat)
    requires 0 < k < |s| - 1 && s[k] == '_'
    requires forall i :: 0 <= i < |s| && i != k ==> 'a' <= s[i] <= 'z'
    ensures IsSanitized(s) && '.' !in s
  {
    assert forall i :: 0 <= i < |s| ==> s[i] == '_' || 'a' <= s[i] <= 'z';
  }

  /**
   * `getWebsiteRoot`: `unknown_site` when the URL does not parse, otherwise a
   * sanitised label of the host name, which holds no dot.
   */
  function GetWebsiteRoot(p: UrlParser, url: string): (root: AStr)
    ensures p.parse(url).None? ==> root == "unknown_site"
    ensures IsSanitized(root) && '.' !in root
  {
    if p.parse(url).None? then
      UnknownSiteSanitized();
      UnknownSite
    else HostRoot(p.parse(url).value.hostname)
  }

  /**
   * The label kept is the one just before the top-level label, after any
   * `www.`: `subdomain.example.com` and `www.example.com` both give `example`.
   */
  lemma WebsiteRootOfName(p: UrlParser, url: string, prefix: AStr, name: AStr, tld: AStr)
    requires p.parse(url).Some?
    requires StripWww(p.parse(url).value.hostname) == prefix + name + "." + tld
    requires '.' !in name && '.' !in tld && tld != []
    requires prefix == [] || prefix[|prefix| - 1] == '.'
    ensures GetWebsiteRoot(p, url) == Sanitize(name)
  {
    var h := prefix + name + "." + tld;
    assert IsLastPiece(tld, h, '.') by {
      assert h[|h| - |tld|..] == tld;
    }
    LastPieceIsLast(h, '.');
    LastPieceUnique(tld, LastPiece(h, '.'), h, '.');
    var d := DropLastLabel(h);
    assert d == prefix + name;
    assert IsLastPiece(name, d, '.') by {
      assert d[|d| - |name|..] == name;
    }
    LastPieceIsLast(d, '.');
    LastPieceUnique(name, LastPiece(d, '.'), d, '.');
  }

  /** A host name without a dot is kept whole: `localhost` gives `localhost`. */
  lemma WebsiteRootOfSingleLabel(p: UrlParser, url: string)
    requires p.parse(url).Some?
    requires '.' !in StripWww(p.parse(url).value.hostname)
    ensures GetWebsiteRoot(p, url) == Sanitize(StripWww(p.parse(url).value.hostname))
  {
    var h := StripWww(p.parse(url).value.hostname);
    assert IsLastPiece(h, h, '.') by {
      assert h[0..] == h;
    }
    LastPieceIsLast(h, '.');
    LastPieceUnique(h, LastPiece(h, '.'), h, '.');
  }

  /** `.replace(/\//g, '_')`. */
  function ReplaceSlashes(s: AStr): (r: AStr)
    ensures |r| == |s| && '/' !in r
    ensures forall i :: 0 <= i < |s| ==> r[i] == if s[i] == '/' then '_' else s[i]
  {
    seq(|s|, i requires 0 <= i < |s| => if s[i] == '/' then '_' else s[i])
  }

  /** The name `getPathName` gives a parsed path. */
  function PathNameOf(path: AStr): (name: AStr)
    ensures IsSanitized(name)
  {
    if path == [] || path == "/" then "home"
    else Sanitize(ReplaceSlashes(DropTrailing(DropLeading(path, '/'), '/')))
  }

  /**
   * `getPathName`: `home` for an empty or `/` path and when the URL does not
   * parse, otherwise a sanitised name, which holds no `/`.
   */
  function GetPathName(p: UrlParser, url: string): (name: AStr)
    ensures p.parse(url).None? ==> name == "home"
    ensures p.parse(url).Some? && p.parse(url).value.pathname in {[], "/"} ==> name == "home"
    ensures IsSanitized(name) && '/' !in name
  {
    var name := if p.parse(url).None? then "home" else PathNameOf(p.parse(url).value.pathname);
    SanitizedHasNoSlash(name);
    name
  }

  /** What sanitising leaves of a string of words joined by single underscores: its lower case. */
  predicate IsTidy(s: seq<char>) {
    && s != []
    && (forall i :: 0 <= i < |s| ==> !IsInvalid(s[i]))
    && NoDoubleUnderscore(s)
    && s[0] != '_' && s[|s| - 1] != '_'
  }

  /** Sanitising a tidy string only lower-cases it. */
  lemma SanitizeTidy(s: AStr)
    requires IsTidy(s)
    ensures Sanitize(s) == Lower(s)
  {
    assert ReplaceInvalid(s) == s;
    CollapseSpec(s);
    TrimSpec(s);
  }

  /** Words joined by `_` are tidy. */
  lemma {:induction false} JoinWordsTidy(segs: seq<AStr>)
    requires |segs| >= 1 && forall k :: 0 <= k < |segs| ==> IsWord(segs[k])
    ensures IsTidy(Join(segs, '_'))
    decreases |segs|
  {
    if |segs| > 1 {
      JoinWordsTidy(segs[1..]);
      var a, rest := segs[0], Join(segs[1..], '_');
      assert IsWord(a);
      var s := a + "_" + rest;
      assert Join(segs, '_') == s;
      forall i | 0 <= i < |s| - 1
        ensures !(s[i] == '_' && s[i + 1] == '_')
      {
        if i >= |a| + 1 {
          assert s[i] == rest[i - |a| - 1] && s[i + 1] == rest[i - |a|];
        }
      }
    }
  }

  /** Replacing slashes in words joined by `/` joins them by `_`. */
  lemma {:induction false} ReplaceSlashesJoin(segs: seq<AStr>)
    requires forall k :: 0 <= k < |segs| ==> '/' !in segs[k]
    ensures ReplaceSlashes(Join(segs, '/')) == Join(segs, '_')
    decreases |segs|
  {
    if |segs| == 1 {
      assert ReplaceSlashes(segs[0]) == segs[0];
    } else if |segs| > 1 {
      ReplaceSlashesJoin(segs[1..]);
      var a, rest := segs[0], Join(segs[1..], '/');
      var s := a + "/" + rest;
      assert Join(segs, '/') == s;
      var r := a + "_" + Join(segs[1..], '_');
      assert forall i :: 0 <= i < |s| ==> ReplaceSlashes(s)[i] == r[i] by {
        forall i | 0 <= i < |s|
          ensures ReplaceSlashes(s)[i] == r[i]
        {
          if i > |a| {
            assert s[i] == rest[i - |a| - 1];
            assert ReplaceSlashes(rest)[i - |a| - 1] == r[i];
          }
        }
      }
    }
  }

  /** The last character of a join is the last character of its last non-empty piece. */
  lemma {:induction false} JoinEnd(segs: seq<AStr>, sep: Ascii)
    requires |segs| >= 1 && segs[|segs| - 1] != []
    ensures var j := Join(segs, sep); j != [] && j[|j| - 1] == segs[|segs| - 1][|segs[|segs| - 1]| - 1]
    decreases |segs|
  {
    if |segs| > 1 {
      JoinEnd(segs[1..], sep);
    }
  }

  /**
   * A path made of words gives those words in lower case joined by `_`:
   * `/UPPER/case/PATH` gives `upper_case_path`.
   */
  lemma PathNameOfSegments(segs: seq<AStr>)
    requires |segs| >= 1 && forall k :: 0 <= k < |segs| ==> IsWord(segs[k])
    ensures PathNameOf("/" + Join(segs, '/')) == Lower(Join(segs, '_'))
  {
    var j, u := Join(segs, '/'), Join(segs, '_');
    SegmentPathBare(segs);
    PathNameOfInner(j);
    assert ReplaceSlashes(j) == u by {
      forall k | 0 <= k < |segs|
        ensures '/' !in segs[k]
      {
        assert IsWord(segs[k]);
      }
      ReplaceSlashesJoin(segs);
    }
    assert Sanitize(u) == Lower(u) by {
      JoinWordsTidy(segs);
      SanitizeTidy(u);
    }
  }

  /** Words joined by `/` neither start nor end with `/`. */
  lemma SegmentPathBare(segs: seq<AStr>)
    requires |segs| >= 1 && forall k :: 0 <= k < |segs| ==> IsWord(segs[k])
    ensures var j := Join(segs, '/'); j != [] && j[0] != '/' && j[|j| - 1] != '/'
  {
    var j := Join(segs, '/');
    assert j != [] && j[0] != '/' by {
      assert IsWord(segs[0]);
      if |segs| > 1 {
        assert j == segs[0] + "/" + Join(segs[1..], '/');
      }
    }
    JoinEnd(segs, '/');
    var last := segs[|segs| - 1];
    assert IsWord(last);
  }

  /** A path of one leading `/` and no trailing `/` loses only its leading `/` before sanitising. */
  lemma PathNameOfInner(j: AStr)
    requires j != [] && j[0] != '/' && j[|j| - 1] != '/'
    ensures PathNameOf("/" + j) == Sanitize(ReplaceSlashes(j))
  {
    var path := "/" + j;
    assert path[1..] == j;
    assert DropLeading(path, '/') == j;
    assert DropTrailing(j, '/') == j;
  }

  /** `createFolderPath`: `base/<website root>/<path name>`. */
  function CreateFolderPath(p: UrlParser, base: AStr, url: string): AStr {
    JoinFolders(base, GetWebsiteRoot(p, url), GetPathName(p, url))
  }

  /** The template `${basePath}/${websiteRoot}/${pathName}`. */
  function JoinFolders(base: AStr, root: AStr, name: AStr): AStr {
    base + "/" + root + "/" + name
  }

  /** The folder path adds exactly two pieces to the base: the website root and the path name. */
  lemma FolderPathLayout(p: UrlParser, base: AStr, url: string)
    ensures Split(CreateFolderPath(p, base, url), '/') == Split(base, '/') + [GetWebsiteRoot(p, url), GetPathName(p, url)]
  {
    var root, name := GetWebsiteRoot(p, url), GetPathName(p, url);
    assert '/' !in root && '/' !in name by {
      SanitizedHasNoSlash(root);
    }
    FolderPathPieces(base, root, name);
  }

  lemma FolderPathPieces(base: AStr, root: AStr, name: AStr)
    requires '/' !in root && '/' !in name
    ensures Split(JoinFolders(base, root, name), '/') == Split(base, '/') + [root, name]
  {
    assert base + "/" + root + "/" + name == base + ['/'] + (root + ['/'] + name);
    SplitConcat(base, root + ['/'] + name, '/');
    SplitAfterPiece(root, name, '/');
    SplitNoSep(name, '/');
  }

  // ---------------------------------------------------------------------
  // getPageResources
  // ---------------------------------------------------------------------

  /** The element kinds the extractor queries; every other element is `OtherTag`. */
  datatype Tag = Link | Script | Img | Anchor | OtherTag

  /** An element of the parsed page with the attributes the extractor reads; `None` is an absent attribute. */
  datatype Element = Element(tag: Tag, href: Option<AStr>, src: Option<AStr>, rel: Option<AStr>)

  /** The `type` of a resource record: `css`, `js`, `image` or `html`. */
  datatype ResourceType = Css | Js | Image | Html

  /** A resource record `{url, filename, type}`. */
  datatype Resource = Resource(url: AStr, filename: AStr, kind: ResourceType)

  predicate StartsWith(s: seq<char>, prefix: seq<char>) {
    |prefix| <= |s| && s[..|prefix|] == prefix
  }

  predicate EndsWith(s: seq<char>, suffix: seq<char>) {
    |suffix| <= |s| && s[|s| - |suffix|..] == suffix
  }

  /**
   * The reference an element contributes to the group of `kind`, if any:
   * a `link` with a non-empty `href` and a `rel` that is absent, empty or
   * `stylesheet`; a `script` or an `img` with a non-empty `src`; an `a`
   * whose `href` ends in `.html`.
   */
  function Reference(e: Element, kind: ResourceType): (ref: Option<AStr>)
    ensures ref.Some? ==> ref.value != []
  {
    match kind
    case Css =>
      if e.tag == Link && e.href.Some? && e.href.value != []
        && (e.rel.None? || e.rel.value == [] || e.rel.value == "stylesheet")
      then Some(e.href.value) else None
    case Js =>
      if e.tag == Script && e.src.Some? && e.src.value != [] then Some(e.src.value) else None
    case Image =>
      if e.tag == Img && e.src.Some? && e.src.value != [] then Some(e.src.value) else None
    case Html =>
      if e.tag == Anchor && e.href.Some? && e.href.value != [] && EndsWith(e.href.value, ".html")
      then Some(e.href.value) else None
  }

  /** `${protocol}//${host}/`: the origin root every relative reference resolves against. */
  function RootPath(u: Url): AStr {
    u.protocol + "//" + u.host + "/"
  }

  /** The length of the run of lower-case letters that `s` starts with. */
  function LetterRun(s: AStr): (n: nat)
    ensures n <= |s|
  {
    if |s| > 0 && 'a' <= s[0] <= 'z' then 1 + LetterRun(s[1..]) else 0
  }

  lemma {:induction false} LetterRunSpec(s: AStr)
    ensures forall i :: 0 <= i < LetterRun(s) ==> 'a' <= s[i] <= 'z'
    ensures LetterRun(s) < |s| ==> !('a' <= s[LetterRun(s)] <= 'z')
  {
    if |s| > 0 && 'a' <= s[0] <= 'z' {
      LetterRunSpec(s[1..]);
    }
  }

  /** The test `/^[a-z]+:\/\/|^\/\//`: the reference names a scheme or starts with `//`. */
  predicate IsAbsoluteRef(ref: AStr) {
    var n := LetterRun(ref);
    (n >= 1 && StartsWith(ref[n..], "://")) || StartsWith(ref, "//")
  }

  /** A scheme of lower-case letters followed by `://`, at the start of `ref`. */
  predicate HasScheme(ref: AStr, k: nat) {
    && 1 <= k <= |ref|
    && (forall i :: 0 <= i < k ==> 'a' <= ref[i] <= 'z')
    && StartsWith(ref[k..], "://")
  }

  /** The test reads the regular expression: some letter run is followed by `://`, or the reference starts with `//`. */
  lemma AbsoluteRefMeaning(ref: AStr)
    ensures IsAbsoluteRef(ref) <==> (exists k :: HasScheme(ref, k)) || StartsWith(ref, "//")
  {
    LetterRunSpec(ref);
    var n := LetterRun(ref);
    if n >= 1 && StartsWith(ref[n..], "://") {
      assert HasScheme(ref, n);
    }
    forall k: nat | HasScheme(ref, k)
      ensures k == n
    {
      assert ref[k] == ':';
    }
  }

  /**
   * `resolveUrl`: an absolute reference is parsed on its own, any other one
   * against the origin root, with one leading `/` removed; where the parser
   * fails, the reference itself is kept.
   */
  function ResolveUrl(p: UrlParser, root: AStr, ref: AStr): (url: AStr)
    ensures ref != [] ==> url != []
  {
    var parsed :=
      if IsAbsoluteRef(ref) then p.parse(ref)
      else if StartsWith(ref, "/") then p.parseWithBase(ref[1..], root)
      else p.parseWithBase(ref, root);
    if parsed.Some? then parsed.value.href else ref
  }

  /** A relative reference with or without its leading `/` resolves to the same URL. */
  lemma LeadingSlashIgnored(p: UrlParser, root: AStr, ref: AStr)
    requires !IsAbsoluteRef(ref) && !StartsWith(ref, "/")
    requires p.parseWithBase(ref, root).Some?
    ensures ResolveUrl(p, root, "/" + ref) == ResolveUrl(p, root, ref) == p.parseWithBase(ref, root).value.href
  {
    var slashed := "/" + ref;
    assert slashed[1..] == ref;
    assert !IsAbsoluteRef(slashed) by {
      assert LetterRun(slashed) == 0;
      assert !StartsWith(slashed, "//") by {
        if |slashed| >= 2 {
          assert slashed[1] == ref[0];
          assert ref[..1] == [ref[0]];
        }
      }
    }
  }

  /** An absolute reference does not depend on the page it appears in. */
  lemma AbsoluteIgnoresRoot(p: UrlParser, root1: AStr, root2: AStr, ref: AStr)
    requires IsAbsoluteRef(ref)
    ensures ResolveUrl(p, root1, ref) == ResolveUrl(p, root2, ref)
    ensures p.parse(ref).Some? ==> ResolveUrl(p, root1, ref) == p.parse(ref).value.href
  {
  }

  /** Where `new URL` throws, `resolveUrl` falls back to the reference as written. */
  lemma ResolveUrlFallback(p: UrlParser, root: AStr, ref: AStr)
    ensures IsAbsoluteRef(ref) && p.parse(ref).None? ==> ResolveUrl(p, root, ref) == ref
    ensures !IsAbsoluteRef(ref) && StartsWith(ref, "/") && p.parseWithBase(ref[1..], root).None?
      ==> ResolveUrl(p, root, ref) == ref
    ensures !IsAbsoluteRef(ref) && !StartsWith(ref, "/") && p.parseWithBase(ref, root).None?
      ==> ResolveUrl(p, root, ref) == ref
  {
  }

  /** The file name given to a URL whose path ends in `/`. */
  const DefaultFilename: AStr := "index.html"

  /**
   * `getFilename`: the last piece of the URL's path, `index.html` when that
   * piece is empty, `unknown` when the URL does not parse.
   */
  function GetFilename(p: UrlParser, url: AStr): (name: AStr)
    ensures name != [] && '/' !in name
    ensures p.parse(url).None? ==> name == "unknown"
    ensures p.parse(url).Some? ==>
      var path := p.parse(url).value.pathname;
      if path == [] || path[|path| - 1] == '/' then name == DefaultFilename else IsLastPiece(name, path, '/')
  {
    if p.parse(url).None? then "unknown"
    else
      var path := p.parse(url).value.pathname;
      var parts := Split(path, '/');
      LastSegment(path);
      if parts[|parts| - 1] == [] then DefaultFilename else parts[|parts| - 1]
  }

  /** The last piece of a split path is empty exactly when the path is empty or ends in `/`. */
  lemma LastSegment(path: AStr)
    ensures var last := Split(path, '/')[|Split(path, '/')| - 1];
      && IsLastPiece(last, path, '/')
      && (last == [] <==> path == [] || path[|path| - 1] == '/')
  {
    var parts := Split(path, '/');
    var last := LastPiece(path, '/');
    assert parts[|parts| - 1] == last by {
      SplitLast(path, '/');
    }
    assert IsLastPiece(last, path, '/') by {
      LastPieceIsLast(path, '/');
    }
    LastPieceEmpty(last, path);
  }

  /** The piece after the last `/` is empty exactly when the path is empty or ends in `/`. */
  lemma LastPieceEmpty(last: AStr, path: AStr)
    requires IsLastPiece(last, path, '/')
    ensures last == [] <==> path == [] || path[|path| - 1] == '/'
  {
    if last != [] {
      assert path[|path| - 1] == last[|last| - 1];
      assert last[|last| - 1] in last;
    }
  }

  /** The record for a reference of an element of the group `kind`. */
  function Record(p: UrlParser, root: AStr, ref: AStr, kind: ResourceType): Resource {
    var url := ResolveUrl(p, root, ref);
    Resource(url, GetFilename(p, url), kind)
  }

  /**
   * An absolute reference that does not parse is kept: its record carries the
   * reference itself as the URL and `unknown` as the file name.
   */
  lemma UnresolvableAbsoluteRecord(p: UrlParser, root: AStr, ref: AStr, kind: ResourceType)
    requires IsAbsoluteRef(ref) && p.parse(ref).None?
    ensures Record(p, root, ref, kind) == Resource(ref, "unknown", kind)
  {
    ResolveUrlFallback(p, root, ref);
  }

  /** What one element adds to the group `kind`: its record, or nothing. */
  function Emit(p: UrlParser, root: AStr, e: Element, kind: ResourceType): seq<Resource> {
    match Reference(e, kind)
    case None => []
    case Some(ref) =>
      var r := Record(p, root, ref, kind);
      if r.url != [] then [r] else []
  }

  /** What `emit` gives for each element of `doc`, one after the other. */
  function Collect(doc: seq<Element>, emit: Element -> seq<Resource>): seq<Resource>
    decreases |doc|
  {
    if doc == [] then []
    else Collect(doc[..|doc| - 1], emit) + emit(doc[|doc| - 1])
  }

  /** The records of the group `kind`, in document order. */
  function Group(p: UrlParser, root: AStr, doc: seq<Element>, kind: ResourceType): seq<Resource> {
    Collect(doc, e => Emit(p, root, e, kind))
  }

  /** All the records of a page: stylesheets, then scripts, then images, then pages. */
  function Extract(p: UrlParser, root: AStr, doc: seq<Element>): seq<Resource> {
    Group(p, root, doc, Css) + Group(p, root, doc, Js) + Group(p, root, doc, Image) + Group(p, root, doc, Html)
  }

  /** A lone element gives exactly one record when it qualifies for the group and none otherwise. */
  lemma GroupOfElement(p: UrlParser, root: AStr, e: Element, kind: ResourceType)
    ensures Group(p, root, [e], kind) == if Reference(e, kind).Some? then [Record(p, root, Reference(e, kind).value, kind)] else []
  {
    var emit := (x: Element) => Emit(p, root, x, kind);
    assert [e][..0] == [];
    assert Collect([e], emit) == Collect([], emit) + emit(e);
  }

  /** The group of a page is the groups of its parts, one after the other: document order, no merging of repeats. */
  lemma GroupAppend(p: UrlParser, root: AStr, d1: seq<Element>, d2: seq<Element>, kind: ResourceType)
    ensures Group(p, root, d1 + d2, kind) == Group(p, root, d1, kind) + Group(p, root, d2, kind)
  {
    CollectAppend(d1, d2, e => Emit(p, root, e, kind));
  }

  lemma {:induction false} CollectAppend(d1: seq<Element>, d2: seq<Element>, emit: Element -> seq<Resource>)
    ensures Collect(d1 + d2, emit) == Collect(d1, emit) + Collect(d2, emit)
    decreases |d2|
  {
    if d2 == [] {
      assert d1 + d2 == d1;
    } else {
      var d, n := d1 + d2, |d2| - 1;
      assert d[..|d| - 1] == d1 + d2[..n];
      assert d[|d| - 1] == d2[n];
      CollectAppend(d1, d2[..n], emit);
      var x, y, e := Collect(d1, emit), Collect(d2[..n], emit), emit(d2[n]);
      assert (x + y) + e == x + (y + e);
    }
  }

  /** Every record of a group has the group's type. */
  lemma GroupKinds(p: UrlParser, root: AStr, doc: seq<Element>, kind: ResourceType)
    ensures forall i :: 0 <= i < |Group(p, root, doc, kind)| ==> Group(p, root, doc, kind)[i].kind == kind
  {
    CollectKinds(doc, e => Emit(p, root, e, kind), kind);
  }

  lemma {:induction false} CollectKinds(doc: seq<Element>, emit: Element -> seq<Resource>, kind: ResourceType)
    requires forall e, i :: 0 <= i < |emit(e)| ==> emit(e)[i].kind == kind
    ensures forall i :: 0 <= i < |Collect(doc, emit)| ==> Collect(doc, emit)[i].kind == kind
    decreases |doc|
  {
    if doc != [] {
      CollectKinds(doc[..|doc| - 1], emit, kind);
    }
  }

  function Rank(kind: ResourceType): nat {
    match kind
    case Css => 0
    case Js => 1
    case Image => 2
    case Html => 3
  }

  predicate RankOrdered(rs: seq<Resource>) {
    forall i, j :: 0 <= i < j < |rs| ==> Rank(rs[i].kind) <= Rank(rs[j].kind)
  }

  /** The records of a page come grouped: stylesheets, scripts, images, pages. */
  lemma ExtractGrouped(p: UrlParser, root: AStr, doc: seq<Element>)
    ensures RankOrdered(Extract(p, root, doc))
  {
    var c, j, m, h := Group(p, root, doc, Css), Group(p, root, doc, Js), Group(p, root, doc, Image), Group(p, root, doc, Html);
    GroupKinds(p, root, doc, Css);
    GroupKinds(p, root, doc, Js);
    GroupKinds(p, root, doc, Image);
    GroupKinds(p, root, doc, Html);
    assert RankOrdered(c + j) by {
      ConcatOrdered(c, j, 1);
    }
    assert RankOrdered(c + j + m) by {
      ConcatOrdered(c + j, m, 2);
    }
    ConcatOrdered(c + j + m, h, 3);
  }

  /** Two rank-ordered runs, all of the first at most `r` and all of the second at least `r`, make a rank-ordered run. */
  lemma ConcatOrdered(x: seq<Resource>, y: seq<Resource>, r: nat)
    requires RankOrdered(x) && RankOrdered(y)
    requires forall i :: 0 <= i < |x| ==> Rank(x[i].kind) <= r
    requires forall i :: 0 <= i < |y| ==> Rank(y[i].kind) >= r
    ensures RankOrdered(x + y)
  {
    var xy := x + y;
    forall i, k | 0 <= i < k < |xy|
      ensures Rank(xy[i].kind) <= Rank(xy[k].kind)
    {
      if k < |x| {
        assert xy[i] == x[i] && xy[k] == x[k];
      } else if i >= |x| {
        assert xy[i] == y[i - |x|] && xy[k] == y[k - |x|];
      } else {
        assert xy[i] == x[i] && xy[k] == y[k - |x|];
      }
    }
  }

  /** One more element of the page adds what `Emit` gives for it. */
  lemma GroupStep(p: UrlParser, root: AStr, doc: seq<Element>, i: nat, kind: ResourceType)
    requires i < |doc|
    ensures Group(p, root, doc[..i + 1], kind) == Group(p, root, doc[..i], kind) + Emit(p, root, doc[i], kind)
  {
    assert doc[..i + 1][..i] == doc[..i];
  }

  /** One `forEach` over the page: the records of the group `kind` are pushed onto `acc` in document order. */
  method CollectGroup(p: UrlParser, root: AStr, doc: seq<Element>, kind: ResourceType, acc: seq<Resource>)
    returns (resources: seq<Resource>)
    ensures resources == acc + Group(p, root, doc, kind)
  {
    resources := acc;
    var i := 0;
    while i < |doc|
      invariant 0 <= i <= |doc|
      invariant resources == acc + Group(p, root, doc[..i], kind)
    {
      GroupStep(p, root, doc, i, kind);
      var ref := Reference(doc[i], kind);
      if ref.Some? {
        var url := ResolveUrl(p, root, ref.value);
        if url != [] {
          resources := resources + [Resource(url, GetFilename(p, url), kind)];
        }
      }
      i := i + 1;
    }
    assert doc[..i] == doc;
  }

  /**
   * `getPageResources`: fails when the page URL does not parse; otherwise the
   * records of the page, with relative references resolved against the
   * origin root of the page URL and never against the page's own path.
   */
  method GetPageResources(p: UrlParser, doc: seq<Element>, baseUrl: string) returns (resources: Option<seq<Resource>>)
    ensures resources.None? <==> p.parse(baseUrl).None?
    ensures resources.Some? ==> resources.value == Extract(p, RootPath(p.parse(baseUrl).value), doc)
  {
    var base := p.parse(baseUrl);
    if base.None? {
      return None;
    }
    var root := RootPath(base.value);
    ghost var c, j, m, h := Group(p, root, doc, Css), Group(p, root, doc, Js), Group(p, root, doc, Image), Group(p, root, doc, Html);
    var found := CollectGroup(p, root, doc, Css, []);
    assert found == c;
    found := CollectGroup(p, root, doc, Js, found);
    found := CollectGroup(p, root, doc, Image, found);
    found := CollectGroup(p, root, doc, Html, found);
    assert found == c + j + m + h;
    return Some(found);
  }

  // ---------------------------------------------------------------------
  // downloadResources
  // ---------------------------------------------------------------------

  /** The options `downloads.download` receives: a URL and the file name to save it under. */
  datatype DownloadRequest = DownloadRequest(url: AStr, filename: AStr)

  /**
   * The browser's download service. It records every request it is given;
   * whether the request succeeds is decided by `outcome`, by the number of
   * requests made before it.
   */
  class DownloadHost {
    var issued: seq<DownloadRequest>
    const outcome: nat -> bool

    constructor(outcome: nat -> bool)
      ensures issued == [] && this.outcome == outcome
    {
      issued := [];
      this.outcome := outcome;
    }

    /** `browser.downloads.download`: `ok` is false where the promise is rejected. */
    method Download(request: DownloadRequest) returns (ok: bool)
      modifies this
      ensures issued == old(issued) + [request]
      ensures ok == outcome(|old(issued)|)
    {
      ok := outcome(|issued|);
      issued := issued + [request];
    }
  }

  /** The request made for each resource, in order: its URL, saved under `folder`. */
  function Requests(resources: seq<Resource>, folder: AStr): (requests: seq<DownloadRequest>)
    ensures |requests| == |resources|
    ensures forall i :: 0 <= i < |resources| ==>
      requests[i] == DownloadRequest(resources[i].url, folder + "/" + resources[i].filename)
  {
    seq(|resources|, i requires 0 <= i < |resources| => DownloadRequest(resources[i].url, folder + "/" + resources[i].filename))
  }

  /** The outcomes of `n` requests made after `start` earlier ones. */
  function Outcomes(host: DownloadHost, start: nat, n: nat): (oks: seq<bool>)
    ensures |oks| == n && forall i :: 0 <= i < n ==> oks[i] == host.outcome(start + i)
  {
    seq(n, i requires 0 <= i < n => host.outcome(start + i))
  }

  /** The resources whose outcome is `want`, in input order. */
  function Sift(resources: seq<Resource>, oks: seq<bool>, want: bool): seq<Resource>
    requires |oks| == |resources|
    decreases |resources|
  {
    if resources == [] then []
    else
      var n := |resources| - 1;
      Sift(resources[..n], oks[..n], want) + (if oks[n] == want then [resources[n]] else [])
  }

  /** Sifting one more resource adds it to the list its outcome selects. */
  lemma SiftPrefix(resources: seq<Resource>, oks: seq<bool>, i: nat, want: bool)
    requires |oks| == |resources| && i < |resources|
    ensures Sift(resources[..i + 1], oks[..i + 1], want)
      == Sift(resources[..i], oks[..i], want) + (if oks[i] == want then [resources[i]] else [])
  {
    assert resources[..i + 1][..i] == resources[..i];
    assert oks[..i + 1][..i] == oks[..i];
  }

  /** Sifting a concatenation sifts each part: each list keeps the input order across the two parts. */
  lemma {:induction false} SiftAppend(a: seq<Resource>, oa: seq<bool>, b: seq<Resource>, ob: seq<bool>, want: bool)
    requires |oa| == |a| && |ob| == |b|
    ensures Sift(a + b, oa + ob, want) == Sift(a, oa, want) + Sift(b, ob, want)
    decreases |b|
  {
    if b == [] {
      assert a + b == a && oa + ob == oa;
    } else {
      var n := |b| - 1;
      SiftAppend(a, oa, b[..n], ob[..n], want);
      var s, o := a + b, oa + ob;
      assert s[..|s| - 1] == a + b[..n] && o[..|o| - 1] == oa + ob[..n];
      assert s[|s| - 1] == b[n] && o[|o| - 1] == ob[n];
      var x, y, e := Sift(a, oa, want), Sift(b[..n], ob[..n], want), if ob[n] == want then [b[n]] else [];
      assert (x + y) + e == x + (y + e);
    }
  }

  /** Every resource lands in exactly one of the two lists. */
  lemma {:induction false} SiftPartition(resources: seq<Resource>, oks: seq<bool>)
    requires |oks| == |resources|
    ensures |Sift(resources, oks, true)| + |Sift(resources, oks, false)| == |resources|
    ensures multiset(Sift(resources, oks, true)) + multiset(Sift(resources, oks, false)) == multiset(resources)
    decreases |resources|
  {
    if resources != [] {
      var n := |resources| - 1;
      SiftPartition(resources[..n], oks[..n]);
      SiftPartitionStep(resources, oks);
    }
  }

  lemma SiftPartitionStep(resources: seq<Resource>, oks: seq<bool>)
    requires |oks| == |resources| > 0
    requires var n := |resources| - 1;
      && |Sift(resources[..n], oks[..n], true)| + |Sift(resources[..n], oks[..n], false)| == n
      && multiset(Sift(resources[..n], oks[..n], true)) + multiset(Sift(resources[..n], oks[..n], false)) == multiset(resources[..n])
    ensures |Sift(resources, oks, true)| + |Sift(resources, oks, false)| == |resources|
    ensures multiset(Sift(resources, oks, true)) + multiset(Sift(resources, oks, false)) == multiset(resources)
  {
    var n := |resources| - 1;
    var rest, last := resources[..n], resources[n];
    var a, b := Sift(rest, oks[..n], true), Sift(rest, oks[..n], false);
    assert multiset(resources) == multiset(rest) + multiset{last} by {
      assert resources == rest + [last];
    }
    if oks[n] {
      assert Sift(resources, oks, true) == a + [last];
      assert Sift(resources, oks, false) == b;
      assert multiset(a + [last]) == multiset(a) + multiset{last};
    } else {
      assert Sift(resources, oks, true) == a;
      assert Sift(resources, oks, false) == b + [last];
      assert multiset(b + [last]) == multiset(b) + multiset{last};
    }
  }

  /** When every download succeeds, everything is in `succeeded`, in order. */
  lemma {:induction false} SiftAllSucceed(resources: seq<Resource>, oks: seq<bool>)
    requires |oks| == |resources| && forall i :: 0 <= i < |oks| ==> oks[i]
    ensures Sift(resources, oks, true) == resources && Sift(resources, oks, false) == []
    decreases |resources|
  {
    if resources != [] {
      var n := |resources| - 1;
      SiftAllSucceed(resources[..n], oks[..n]);
      assert resources == resources[..n] + [resources[n]];
    }
  }

  /**
   * When only the download at `k` fails, `failed` holds that resource alone
   * and `succeeded` holds all the others in order, those after it included.
   */
  lemma {:induction false} SiftOneFailure(resources: seq<Resource>, oks: seq<bool>, k: nat)
    requires |oks| == |resources| && k < |oks| && !oks[k]
    requires forall i :: 0 <= i < |oks| && i != k ==> oks[i]
    ensures Sift(resources, oks, false) == [resources[k]]
    ensures Sift(resources, oks, true) == resources[..k] + resources[k + 1..]
    decreases |resources|
  {
    var n := |resources| - 1;
    if k == n {
      SiftAllSucceed(resources[..n], oks[..n]);
    } else {
      SiftOneFailure(resources[..n], oks[..n], k);
      assert resources[..n][..k] == resources[..k];
      assert resources[..n][k + 1..] + [resources[n]] == resources[k + 1..];
    }
  }

  /** Adding a resource adds its request. */
  lemma RequestsPrefix(resources: seq<Resource>, folder: AStr, i: nat)
    requires i < |resources|
    ensures Requests(resources[..i + 1], folder)
      == Requests(resources[..i], folder) + [DownloadRequest(resources[i].url, folder + "/" + resources[i].filename)]
  {
  }

  /**
   * The file name of every request is the base path, the website root, the
   * path name and the resource's own file name, as four or more `/`-pieces.
   */
  lemma RequestLayout(p: UrlParser, resources: seq<Resource>, basePath: AStr, pageUrl: string, i: nat)
    requires i < |resources|
    ensures Split(Requests(resources, CreateFolderPath(p, basePath, pageUrl))[i].filename, '/')
      == Split(basePath, '/') + [GetWebsiteRoot(p, pageUrl), GetPathName(p, pageUrl)] + Split(resources[i].filename, '/')
  {
    var folder := CreateFolderPath(p, basePath, pageUrl);
    FolderPathLayout(p, basePath, pageUrl);
    SplitConcat(folder, resources[i].filename, '/');
  }

  /**
   * `downloadResources`: one request per resource, in order, each saved
   * under the folder path of the page; the resources whose request succeeds
   * go to `succeeded` and the others to `failed`, both in input order, and
   * a failure does not stop the requests after it.
   */
  method DownloadResources(host: DownloadHost, p: UrlParser, resources: seq<Resource>, basePath: AStr, pageUrl: string)
    returns (succeeded: seq<Resource>, failed: seq<Resource>)
    modifies host
    ensures host.issued == old(host.issued) + Requests(resources, CreateFolderPath(p, basePath, pageUrl))
    ensures succeeded == Sift(resources, Outcomes(host, |old(host.issued)|, |resources|), true)
    ensures failed == Sift(resources, Outcomes(host, |old(host.issued)|, |resources|), false)
  {
    var folder := CreateFolderPath(p, basePath, pageUrl);
    succeeded, failed := DownloadAll(host, resources, folder);
  }

  /** The `for…of` loop of `downloadResources`, for the folder path it computed. */
  method DownloadAll(host: DownloadHost, resources: seq<Resource>, folder: AStr)
    returns (succeeded: seq<Resource>, failed: seq<Resource>)
    modifies host
    ensures host.issued == old(host.issued) + Requests(resources, folder)
    ensures succeeded == Sift(resources, Outcomes(host, |old(host.issued)|, |resources|), true)
    ensures failed == Sift(resources, Outcomes(host, |old(host.issued)|, |resources|), false)
  {
    succeeded, failed := [], [];
    ghost var oks := Outcomes(host, |host.issued|, |resources|);
    var i := 0;
    while i < |resources|
      invariant 0 <= i <= |resources|
      invariant host.issued == old(host.issued) + Requests(resources[..i], folder)
      invariant succeeded == Sift(resources[..i], oks[..i], true)
      invariant failed == Sift(resources[..i], oks[..i], false)
    {
      var resource := resources[i];
      var request := DownloadRequest(resource.url, folder + "/" + resource.filename);
      RequestsPrefix(resources, folder, i);
      var ok := host.Download(request);
      assert ok == oks[i];
      if ok {
        succeeded := succeeded + [resource];
      } else {
        failed := failed + [resource];
      }
      SiftPrefix(resources, oks, i, true);
      SiftPrefix(resources, oks, i, false);
      i := i + 1;
    }
    assert oks[..i] == oks;
    assert resources[..i] == resources;
  }
}
