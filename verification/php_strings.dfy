/**
  The PHP string built-ins the plugin uses, on `string` as a sequence of single-byte
  characters: `strtolower`, `substr` with a start offset, `end(explode('/', …))`,
  `pathinfo(…, PATHINFO_EXTENSION)` and `str_replace` with an empty replacement.
 */
module PhpStrings {

  predicate StartsWith(s: string, prefix: string) {
    |prefix| <= |s| && s[..|prefix|] == prefix
  }

  predicate EndsWith(s: string, suffix: string) {
    |suffix| <= |s| && s[|s| - |suffix|..] == suffix
  }

  function LowerChar(c: char): char {
    if 'A' <= c <= 'Z' then (c as int + 32) as char else c
  }

  /** `strtolower`, which since PHP 8.2 folds ASCII letters only. */
  function Lower(s: string): (r: string)
    ensures |r| == |s|
    ensures forall i :: 0 <= i < |s| ==> r[i] == LowerChar(s[i])
  {
    if |s| == 0 then "" else [LowerChar(s[0])] + Lower(s[1..])
  }

  /** A string without upper-case ASCII letters is its own lower-case form. */
  lemma LowerUnchanged(s: string)
    requires forall i :: 0 <= i < |s| ==> !('A' <= s[i] <= 'Z')
    ensures Lower(s) == s
  {
    var r := Lower(s);
    forall i | 0 <= i < |s|
      ensures r[i] == s[i]
    {
      assert r[i] == LowerChar(s[i]);
    }
  }

  /** `substr(s, start)` as PHP 8 defines it: "" once `start` reaches the end. */
  function SubstrFrom(s: string, start: nat): (r: string)
    ensures |s| <= start ==> r == ""
    ensures start < |s| ==> |r| == |s| - start && s == s[..start] + r
  {
    if |s| <= start then "" else s[start..]
  }

  /** Index of the last occurrence of `c` in `s`, or -1. */
  function LastIndexOf(s: string, c: char): (i: int)
    ensures -1 <= i < |s|
    ensures 0 <= i ==> s[i] == c
    ensures forall j :: i < j < |s| ==> s[j] != c
  {
    if |s| == 0 then -1
    else if s[|s| - 1] == c then |s| - 1
    else LastIndexOf(s[..|s| - 1], c)
  }

  /** Nothing after the last occurrence of `c` is a `c`. */
  lemma NoneAfterLast(s: string, c: char)
    ensures c !in s[LastIndexOf(s, c) + 1..]
  {
    var i := LastIndexOf(s, c);
    var r := s[i + 1..];
    forall k | 0 <= k < |r|
      ensures r[k] != c
    {
      assert r[k] == s[i + 1 + k];
    }
  }

  lemma NotInSuffix(s: string, i: nat, c: char)
    requires i <= |s| && c !in s
    ensures c !in s[i..]
  {
    forall k | 0 <= k < |s| - i
      ensures s[i..][k] != c
    {
      assert s[i..][k] == s[i + k];
    }
  }

  /** `s` ends with its character at `i` followed by everything after it. */
  lemma EndsAfter(s: string, i: nat)
    requires i < |s|
    ensures EndsWith(s, [s[i]] + s[i + 1..])
  {
    assert s[i..] == [s[i]] + s[i + 1..];
  }

  /** `end(explode('/', s))`: the text after the last slash, or all of `s`. */
  function LastSegment(s: string): (r: string)
    ensures '/' !in r
    ensures EndsWith(s, r)
    ensures |r| < |s| ==> s[|s| - |r| - 1] == '/'
  {
    NoneAfterLast(s, '/');
    s[LastIndexOf(s, '/') + 1..]
  }

  /** In `a + [c] + b` with no `c` in `b`, the last `c` is the one after `a`. */
  lemma {:induction false} LastIndexAfter(a: string, c: char, b: string)
    requires c !in b
    ensures LastIndexOf(a + [c] + b, c) == |a|
    decreases |b|
  {
    var s := a + [c] + b;
    if |b| > 0 {
      var b' := b[..|b| - 1];
      assert s[|s| - 1] == b[|b| - 1];
      assert s[..|s| - 1] == a + [c] + b';
      assert c !in b' by {
        assert forall x | x in b' :: x in b;
      }
      LastIndexAfter(a, c, b');
    }
  }

  /** The last segment of `a + "/" + b` is `b` when `b` holds no slash. */
  lemma LastSegmentAfterSlash(a: string, b: string)
    requires '/' !in b
    ensures LastSegment(a + "/" + b) == b
  {
    LastIndexAfter(a, '/', b);
    assert (a + "/" + b)[|a| + 1..] == b;
  }

  function TrimTrailingSlashes(s: string): (r: string)
    ensures StartsWith(s, r)
    ensures |r| == 0 || r[|r| - 1] != '/'
  {
    if |s| > 0 && s[|s| - 1] == '/' then TrimTrailingSlashes(s[..|s| - 1]) else s
  }

  /** PHP `basename`: the last non-empty run of characters other than '/'. */
  function Basename(path: string): string {
    LastSegment(TrimTrailingSlashes(path))
  }

  /** `pathinfo(path, PATHINFO_EXTENSION)`: what follows the last '.' of the base name,
      or "" when the base name holds no dot. */
  function Extension(path: string): (r: string)
    ensures '.' !in r && '/' !in r
    ensures r != "" ==> EndsWith(Basename(path), "." + r)
  {
    var base := Basename(path);
    var dot := LastIndexOf(base, '.');
    NoneAfterLast(base, '.');
    if dot < 0 then ""
    else
      NotInSuffix(base, dot + 1, '/');
      EndsAfter(base, dot);
      base[dot + 1..]
  }

  /** An index holding `c` with no `c` after it is the last index of `c`. */
  lemma LastIndexUnique(s: string, c: char, j: int)
    requires -1 <= j < |s| && (0 <= j ==> s[j] == c)
    requires forall k :: j < k < |s| ==> s[k] != c
    ensures LastIndexOf(s, c) == j
  {
  }

  /** Appending text without a slash extends the last segment by that text. */
  lemma LastSegmentOfConcat(a: string, b: string)
    requires '/' !in b
    ensures LastSegment(a + b) == LastSegment(a) + b
  {
    var j := LastIndexOf(a, '/');
    var s := a + b;
    NoSlashAfterLast(a, b);
    LastIndexUnique(s, '/', j);
    assert s[j + 1..] == a[j + 1..] + b;
  }

  /** Past the last slash of `a`, `a + b` holds no slash when `b` holds none. */
  lemma NoSlashAfterLast(a: string, b: string)
    requires '/' !in b
    ensures forall k :: LastIndexOf(a, '/') < k < |a + b| ==> (a + b)[k] != '/'
  {
    var j := LastIndexOf(a, '/');
    forall k | j < k < |a + b|
      ensures (a + b)[k] != '/'
    {
      if k >= |a| {
        assert (a + b)[k] == b[k - |a|];
      }
    }
  }

  /** A path not ending in a slash is its own trimmed form. */
  lemma TrimNothing(s: string)
    requires |s| > 0 && s[|s| - 1] != '/'
    ensures TrimTrailingSlashes(s) == s
  {
  }

  /** A path ending in "." + `ext` (with no dot or slash in `ext`) has extension `ext`. */
  lemma ExtensionOfName(stem: string, ext: string)
    requires ext != "" && '.' !in ext && '/' !in ext
    ensures Extension(stem + "." + ext) == ext
  {
    var x := LastSegment(stem);
    BasenameOfDotted(stem, ext);
    LastIndexAfter(x, '.', ext);
    assert (x + ['.'] + ext)[|x| + 1..] == ext;
  }

  /** The base name of `stem.ext` is the last segment of `stem` followed by `.ext`. */
  lemma BasenameOfDotted(stem: string, ext: string)
    requires ext != "" && '/' !in ext
    ensures Basename(stem + "." + ext) == LastSegment(stem) + ['.'] + ext
  {
    var tail := "." + ext;
    Associate(stem, ".", ext);
    DottedNoSlash(ext);
    BasenameOfConcat(stem, tail);
    Associate(LastSegment(stem), ['.'], ext);
  }

  lemma Associate(a: string, b: string, c: string)
    ensures a + b + c == a + (b + c)
  {
  }

  /** Appending a non-empty tail without slashes extends the base name by that tail. */
  lemma BasenameOfConcat(a: string, tail: string)
    requires tail != "" && '/' !in tail
    ensures Basename(a + tail) == LastSegment(a) + tail
  {
    assert (a + tail)[|a + tail| - 1] == tail[|tail| - 1];
    TrimNothing(a + tail);
    LastSegmentOfConcat(a, tail);
  }

  /** `.ext` holds no slash when `ext` holds none. */
  lemma DottedNoSlash(ext: string)
    requires ext != "" && '/' !in ext
    ensures '/' !in "." + ext
  {
    var tail := "." + ext;
    forall k | 1 <= k < |tail|
      ensures tail[k] != '/'
    {
      assert tail[k] == ext[k - 1];
    }
  }

  /** Whether `needle` occurs anywhere in `s`. */
  predicate Occurs(needle: string, s: string)
    decreases |s|
  {
    StartsWith(s, needle) || (|s| > 0 && Occurs(needle, s[1..]))
  }

  /** `str_replace(needle, '', s)`: every occurrence of `needle`, scanned left to right
      without overlaps, is removed; an empty needle leaves `s` as it is. */
  function RemoveAll(s: string, needle: string): (r: string)
    ensures |r| <= |s|
    ensures forall c :: c in r ==> c in s
    ensures |needle| == 0 ==> r == s
    decreases |s|
  {
    if |needle| == 0 || |s| == 0 then s
    else if StartsWith(s, needle) then RemoveAll(s[|needle|..], needle)
    else [s[0]] + RemoveAll(s[1..], needle)
  }

  lemma {:induction false} RemoveAbsent(s: string, needle: string)
    requires !Occurs(needle, s)
    ensures RemoveAll(s, needle) == s
    decreases |s|
  {
    if |needle| > 0 && |s| > 0 {
      RemoveAbsent(s[1..], needle);
      assert s == [s[0]] + s[1..];
    }
  }

  /** Removing a leading occurrence and then the rest is removing from the rest. */
  lemma RemoveLeading(p: string, needle: string)
    requires needle != ""
    ensures RemoveAll(needle + p, needle) == RemoveAll(p, needle)
  {
    assert (needle + p)[|needle|..] == p;
  }

  /** A needle with a character that `s` lacks does not occur in `s`. */
  lemma {:induction false} AbsentCharMeansNoOccurrence(needle: string, s: string, i: nat)
    requires i < |needle| && needle[i] !in s
    ensures !Occurs(needle, s)
    decreases |s|
  {
    assert |needle| <= |s| ==> s[..|needle|][i] == s[i];
    if |s| > 0 {
      AbsentCharMeansNoOccurrence(needle, s[1..], i);
    }
  }
}
