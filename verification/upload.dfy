/** The multer configuration of server.js:185-202: which uploads are
    refused, how large they may be, and the name a stored upload gets. */
module Upload {
  import opened Wrappers
  import opened Text

  /** `limits.fileSize`: 5 MiB. */
  const MaxFileSize: nat := 5 * 1024 * 1024

  predicate IsImageExtension(e: string) {
    e == "jpg" || e == "jpeg" || e == "png" || e == "gif"
  }

  /** `fileFilter`: the client's file name matches `/\.(jpg|jpeg|png|gif)$/i`.
      Without the `u` flag the case-insensitive match folds only ASCII letters
      onto these ASCII patterns, so lower-casing the ASCII letters of the name
      and comparing is exact. */
  predicate FileFilter(originalname: string) {
    var l := Lower(originalname);
    EndsWith(l, ".jpg") || EndsWith(l, ".jpeg") || EndsWith(l, ".png") || EndsWith(l, ".gif")
  }

  /** The reading a user has of the filter: the text after the last '.' of
      the name is an image extension, in any ASCII case. */
  predicate HasImageExtension(name: string) {
    match LastIndex(name, '.')
    case None => false
    case Some(d) => IsImageExtension(Lower(name[d + 1..]))
  }

  /** A name whose lower-cased form ends in "." + `e`, for a dot-free `e`,
      has its last dot just before that ending. */
  lemma {:induction false} DotSuffixLastDot(name: string, e: string)
    requires forall k :: 0 <= k < |e| ==> e[k] != '.'
    requires EndsWith(Lower(name), "." + e)
    ensures LastIndex(name, '.') == Some(|name| - |e| - 1)
    ensures Lower(name[LastIndex(name, '.').value + 1..]) == e
  {
    LastDotOfEnding(name, e);
    EndingLowered(name, e);
  }

  /** The last |e| characters of such a name, lower-cased, are `e`. */
  lemma EndingLowered(name: string, e: string)
    requires EndsWith(Lower(name), "." + e)
    ensures |e| < |name| && Lower(name[|name| - |e|..]) == e
  {
    DotEnding(Lower(name), e);
    LowerSuffix(name, |name| - |e|);
  }

  lemma {:induction false} LastDotOfEnding(name: string, e: string)
    requires forall k :: 0 <= k < |e| ==> e[k] != '.'
    requires EndsWith(Lower(name), "." + e)
    ensures LastIndex(name, '.') == Some(|name| - |e| - 1)
  {
    var l := Lower(name);
    var d := |name| - |e| - 1;
    DotEnding(l, e);
    LowerKeepsDots(name);
    var tail := l[d + 1..];
    forall k | d < k < |name| ensures name[k] != '.' {
      assert l[k] == tail[k - d - 1];
    }
    LastIndexAt(name, '.', d);
  }

  /** A string ending in "." + `e` has the dot just before its last |e|
      characters, and those are `e`. */
  lemma DotEnding(l: string, e: string)
    requires EndsWith(l, "." + e)
    ensures |e| + 1 <= |l| && l[|l| - |e| - 1] == '.' && l[|l| - |e|..] == e
  {
    var tail := l[|l| - |e| - 1..];
    assert tail[0] == '.' && tail[1..] == e;
  }

  /** Lower-casing neither makes nor removes a '.'. */
  lemma LowerKeepsDots(s: string)
    ensures forall k :: 0 <= k < |s| ==> (Lower(s)[k] == '.' <==> s[k] == '.')
  {
  }

  /** What follows the last dot of a name, lower-cased, when there is a dot. */
  lemma {:induction false} DotSuffixBack(name: string, e: string)
    requires LastIndex(name, '.').Some? && Lower(name[LastIndex(name, '.').value + 1..]) == e
    ensures EndsWith(Lower(name), "." + e)
  {
    var l := Lower(name);
    var d := LastIndex(name, '.').value;
    LowerSuffix(name, d + 1);
    assert l[d + 1..] == e;
    assert l[d] == '.';
    assert l[d..] == [l[d]] + l[d + 1..];
    assert |l| - |"." + e| == d;
  }

  /** The regular expression accepts a name exactly when its last
      extension is an image extension. */
  lemma {:induction false} FileFilterIsExtensionCheck(name: string)
    ensures FileFilter(name) <==> HasImageExtension(name)
  {
    if FileFilter(name) {
      FilterHasExtension(name);
    }
    if HasImageExtension(name) {
      HasExtensionFilter(name);
    }
  }

  lemma {:induction false} FilterHasExtension(name: string)
    requires FileFilter(name)
    ensures HasImageExtension(name)
  {
    var l := Lower(name);
    var e := ImageEnding(l);
    ImageExtensionLetters(e);
    DotSuffixLastDot(name, e);
  }

  /** The extension a name accepted by the regular expression ends with. */
  function ImageEnding(l: string): (e: string)
    requires EndsWith(l, ".jpg") || EndsWith(l, ".jpeg") || EndsWith(l, ".png") || EndsWith(l, ".gif")
    ensures IsImageExtension(e) && EndsWith(l, "." + e)
  {
    if EndsWith(l, ".jpg") then assert ".jpg" == "." + "jpg"; "jpg"
    else if EndsWith(l, ".jpeg") then assert ".jpeg" == "." + "jpeg"; "jpeg"
    else if EndsWith(l, ".png") then assert ".png" == "." + "png"; "png"
    else assert ".gif" == "." + "gif"; "gif"
  }

  lemma {:induction false} HasExtensionFilter(name: string)
    requires HasImageExtension(name)
    ensures FileFilter(name)
  {
    var e := Lower(name[LastIndex(name, '.').value + 1..]);
    DotSuffixBack(name, e);
    EndsWithImageExtension(Lower(name), e);
  }

  lemma EndsWithImageExtension(l: string, e: string)
    requires IsImageExtension(e) && EndsWith(l, "." + e)
    ensures EndsWith(l, ".jpg") || EndsWith(l, ".jpeg") || EndsWith(l, ".png") || EndsWith(l, ".gif")
  {
    if e == "jpg" {
      assert "." + e == ".jpg";
    } else if e == "jpeg" {
      assert "." + e == ".jpeg";
    } else if e == "png" {
      assert "." + e == ".png";
    } else {
      assert "." + e == ".gif";
    }
  }

  /** Where the last path segment of `p` starts: just after its last '/'. */
  function BaseStart(p: string): (start: nat)
    ensures start <= |p|
    ensures forall k :: start <= k < |p| ==> p[k] != '/'
    ensures 0 < start ==> p[start - 1] == '/'
  {
    match LastIndex(p, '/')
    case None => 0
    case Some(i) => i + 1
  }

  /** `path.extname` of one path segment: from its last '.' to the end;
      empty when there is no dot, when the dot opens the segment, and for
      the segment "..". */
  function SegmentExtname(base: string): (r: string)
    ensures r != "" ==> r[0] == '.' && EndsWith(base, r)
    ensures forall k :: 1 <= k < |r| ==> r[k] != '.'
  {
    match LastIndex(base, '.')
    case None => ""
    case Some(d) => if d == 0 || base == ".." then "" else base[d..]
  }

  /** `path.extname` (POSIX): the extension of the last path segment. */
  function Extname(p: string): (r: string)
    ensures r != "" ==> r[0] == '.' && EndsWith(p, r)
    ensures forall k :: 1 <= k < |r| ==> r[k] != '.' && r[k] != '/'
  {
    var base := p[BaseStart(p)..];
    var r := SegmentExtname(base);
    assert r != "" ==> r == p[|p| - |r|..];
    r
  }

  /** `Date.now() + '-' + Math.round(Math.random() * 1e9)`, from the two
      numbers (the clock and the random draw are inputs here). */
  function UniqueSuffix(millis: nat, random: nat): (r: string)
    ensures forall k :: 0 <= k < |r| ==> r[k] != '.' && r[k] != '/'
  {
    Decimal(millis) + "-" + Decimal(random)
  }

  /** The `filename` callback: `image-${uniqueSuffix}${ext}` with the
      extension of the client's file name. */
  function StoredFilename(millis: nat, random: nat, originalname: string): (r: string)
    ensures StartsWith(r, "image-") && EndsWith(r, Extname(originalname))
  {
    var r := "image-" + UniqueSuffix(millis, random) + Extname(originalname);
    assert r[|r| - |Extname(originalname)|..] == Extname(originalname);
    r
  }

  lemma ConcatAt(a: string, b: string, i: int)
    ensures 0 <= i < |a| ==> (a + b)[i] == a[i]
    ensures |a| <= i < |a| + |b| ==> (a + b)[i] == b[i - |a|]
  {
  }

  /** Two concatenations split at the first `c` agree part by part, when
      neither head holds `c` and each tail is empty or starts with `c`. */
  lemma SplitAt(a1: string, b1: string, a2: string, b2: string, c: char)
    requires a1 + b1 == a2 + b2
    requires forall k :: 0 <= k < |a1| ==> a1[k] != c
    requires forall k :: 0 <= k < |a2| ==> a2[k] != c
    requires b1 == [] || b1[0] == c
    requires b2 == [] || b2[0] == c
    ensures a1 == a2 && b1 == b2
  {
    var x := a1 + b1;
    if |a1| < |a2| {
      ConcatAt(a1, b1, |a1|);
      ConcatAt(a2, b2, |a1|);
      assert false;
    } else if |a2| < |a1| {
      ConcatAt(a1, b1, |a2|);
      ConcatAt(a2, b2, |a2|);
      assert false;
    } else {
      assert a1 == x[..|a1|] && a2 == x[..|a2|];
    }
  }

  /** The suffix is read back from its text: the digits before the '-'
      and the digits after it. */
  lemma {:induction false} UniqueSuffixInjective(m1: nat, r1: nat, m2: nat, r2: nat)
    requires UniqueSuffix(m1, r1) == UniqueSuffix(m2, r2)
    ensures m1 == m2 && r1 == r2
  {
    var t1, t2 := "-" + Decimal(r1), "-" + Decimal(r2);
    assert UniqueSuffix(m1, r1) == Decimal(m1) + "-" + Decimal(r1) == Decimal(m1) + t1;
    assert UniqueSuffix(m2, r2) == Decimal(m2) + "-" + Decimal(r2) == Decimal(m2) + t2;
    SplitAt(Decimal(m1), t1, Decimal(m2), t2, '-');
    assert Decimal(r1) == t1[1..] && Decimal(r2) == t2[1..];
    DecimalInjective(m1, m2);
    DecimalInjective(r1, r2);
  }

  lemma StoredFilenameTail(millis: nat, random: nat, originalname: string)
    ensures StoredFilename(millis, random, originalname)[6..] == UniqueSuffix(millis, random) + Extname(originalname)
  {
  }

  /** Different clock or random readings never give the same stored name,
      whatever the two client file names were. */
  lemma {:induction false} StoredFilenamesDistinct(m1: nat, r1: nat, o1: string, m2: nat, r2: nat, o2: string)
    requires StoredFilename(m1, r1, o1) == StoredFilename(m2, r2, o2)
    ensures m1 == m2 && r1 == r2 && Extname(o1) == Extname(o2)
  {
    StoredFilenameTail(m1, r1, o1);
    StoredFilenameTail(m2, r2, o2);
    SplitAt(UniqueSuffix(m1, r1), Extname(o1), UniqueSuffix(m2, r2), Extname(o2), '.');
    UniqueSuffixInjective(m1, r1, m2, r2);
  }

  /** The image extensions are lower-case ASCII letters. */
  lemma ImageExtensionLetters(e: string)
    requires IsImageExtension(e)
    ensures forall k :: 0 <= k < |e| ==> 'a' <= e[k] <= 'z'
  {
  }

  /** What an accepted name looks like: a last dot at `d` followed by one of
      the image extensions, so no '/' after it. */
  lemma {:induction false} AcceptedNameShape(o: string) returns (d: nat, e: string)
    requires FileFilter(o)
    ensures LastIndex(o, '.') == Some(d)
    ensures IsImageExtension(e) && Lower(o[d + 1..]) == e && d + 1 + |e| == |o|
    ensures forall k :: d <= k < |o| ==> o[k] != '/'
  {
    FilterHasExtension(o);
    d := LastIndex(o, '.').value;
    var tail := o[d + 1..];
    e := Lower(tail);
    ImageExtensionLetters(e);
    forall k | d < k < |o| ensures o[k] != '/' {
      assert o[k] == tail[k - d - 1];
      assert e[k - d - 1] == AsciiLower(tail[k - d - 1]);
    }
  }

  /** `path.extname` of a name whose last dot at `d` has no '/' after it
      and is not its last character. */
  lemma {:induction false} ExtnameAtDot(o: string, d: nat)
    requires LastIndex(o, '.') == Some(d) && d + 1 < |o|
    requires forall k :: d <= k < |o| ==> o[k] != '/'
    ensures d == 0 || o[d - 1] == '/' ==> Extname(o) == ""
    ensures !(d == 0 || o[d - 1] == '/') ==> Extname(o) == o[d..]
  {
    var start := BaseStart(o);
    LastIndexBefore(o, '/', d);
    assert start == d <==> d == 0 || o[d - 1] == '/';
    var base := o[start..];
    var j := d - start;
    assert j + 1 < |base| && base[j] == '.';
    forall k | j < k < |base| ensures base[k] != '.' {
      assert base[k] == o[start + k];
    }
    LastIndexAt(base, '.', j);
    assert base != "..";
    assert base[j..] == o[d..];
    assert Extname(o) == SegmentExtname(base);
  }

  /** The extension an accepted name keeps is the whole dotted extension
      the filter saw, except when the last dot opens the name's last
      segment (`.png`, `dir/.gif`): then it is empty. */
  lemma {:induction false} ExtnameOfAccepted(o: string) returns (d: nat)
    requires FileFilter(o)
    ensures LastIndex(o, '.') == Some(d)
    ensures d == 0 || o[d - 1] == '/' ==> Extname(o) == ""
    ensures !(d == 0 || o[d - 1] == '/') ==> Extname(o) == o[d..]
  {
    var e;
    d, e := AcceptedNameShape(o);
    ExtnameAtDot(o, d);
  }

  /** Whether a name has an image extension depends only on a dotted
      ending it has with no other dot in it. */
  lemma {:induction false} ExtensionOfEnding(a: string, t: string)
    requires EndsWith(a, t) && |t| > 0 && t[0] == '.'
    requires forall k :: 1 <= k < |t| ==> t[k] != '.'
    ensures HasImageExtension(a) <==> IsImageExtension(Lower(t[1..]))
  {
    var at := |a| - |t|;
    forall k | at < k < |a| ensures a[k] != '.' {
      assert a[k] == t[k - at];
    }
    LastIndexAt(a, '.', at);
    assert a[at + 1..] == t[1..];
  }

  /** A stored name made without an extension has no dot at all. */
  lemma {:induction false} StoredNameWithoutDot(millis: nat, random: nat, o: string)
    requires Extname(o) == ""
    ensures forall k :: 0 <= k < |StoredFilename(millis, random, o)| ==> StoredFilename(millis, random, o)[k] != '.'
  {
    var stored := StoredFilename(millis, random, o);
    var suffix := UniqueSuffix(millis, random);
    StoredFilenameTail(millis, random, o);
    forall k | 0 <= k < |stored| ensures stored[k] != '.' {
      if k >= 6 {
        assert stored[k] == stored[6..][k - 6] == suffix[k - 6];
      } else {
        assert stored[..6] == "image-";
      }
    }
  }

  /** A stored upload keeps an extension the filter accepts, except when the
      client's name is a bare dotted extension (`.png`): then its stored
      name has no extension at all. */
  lemma {:induction false} StoredNameKeepsFilter(millis: nat, random: nat, o: string)
    requires FileFilter(o)
    ensures FileFilter(StoredFilename(millis, random, o)) <==> Extname(o) != ""
  {
    var d := ExtnameOfAccepted(o);
    var stored := StoredFilename(millis, random, o);
    var ext := Extname(o);
    FileFilterIsExtensionCheck(stored);
    FileFilterIsExtensionCheck(o);
    if ext != "" {
      ExtensionOfEnding(stored, ext);
      ExtensionOfEnding(o, ext);
    } else {
      StoredNameWithoutDot(millis, random, o);
    }
  }
}
