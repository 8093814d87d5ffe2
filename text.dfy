/**
 * The string and path helpers the file routes rely on: an ASCII-only
 * stand-in for `toLowerCase`, the "true" query flag, the case-insensitive `^image/`
 * mimetype test and `path.basename`.
 */
module Text {
  import opened Common

  function LowerChar(c: char): char
  {
    if 'A' <= c <= 'Z' then (c as int + ('a' as int - 'A' as int)) as char else c
  }

  /** Lower-cases every ASCII letter of `s` and leaves every other character alone. */
  function Lower(s: string): (r: string)
    ensures |r| == |s|
    ensures forall i :: 0 <= i < |s| ==> r[i] == LowerChar(s[i])
    ensures forall i :: 0 <= i < |s| ==> !('A' <= r[i] <= 'Z')
  {
    if s == [] then [] else [LowerChar(s[0])] + Lower(s[1..])
  }

  /**
   * A query flag such as `skipFileUpload` or `thumbnail` is set when it is
   * present, non-empty (a truthy string) and lower-cases to "true".
   */
  predicate IsTrueFlag(q: Option<string>)
  {
    q.Some? && q.value != "" && Lower(q.value) == "true"
  }

  /** An absent flag is unset, and exactly the sixteen upper/lower-case spellings of "true" set it. */
  lemma TrueFlagSpellings(s: string)
    ensures !IsTrueFlag(None)
    ensures IsTrueFlag(Some(s)) <==>
      |s| == 4 && s[0] in "tT" && s[1] in "rR" && s[2] in "uU" && s[3] in "eE"
  {
    if |s| == 4 && s[0] in "tT" && s[1] in "rR" && s[2] in "uU" && s[3] in "eE" {
      var l := Lower(s);
      assert l[0] == 't' && l[1] == 'r' && l[2] == 'u' && l[3] == 'e';
      assert l == "true";
    }
    if IsTrueFlag(Some(s)) {
      assert Lower(s)[0] == 't' && Lower(s)[1] == 'r' && Lower(s)[2] == 'u' && Lower(s)[3] == 'e';
    }
  }

  /**
   * The mimetype test of the GET route: the regular expression `^(image\/)`
   * with the `i` flag, i.e. the first six characters are "image/" up to the
   * case of ASCII letters.
   */
  predicate IsImageType(mimetype: string)
  {
    |mimetype| >= 6 && Lower(mimetype[..6]) == "image/"
  }

  /** Lower-casing commutes with taking a prefix. */
  lemma LowerPrefix(s: string, n: nat)
    requires n <= |s|
    ensures Lower(s[..n]) == Lower(s)[..n]
  {
  }

  /** The image test is a prefix test on the lower-cased mimetype. */
  lemma ImageTypeIsLowerPrefix(mimetype: string)
    ensures IsImageType(mimetype) <==> "image/" <= Lower(mimetype)
  {
    if |mimetype| >= 6 {
      LowerPrefix(mimetype, 6);
    }
  }

  /** The image test ignores the case of the mimetype. */
  lemma ImageTypeIgnoresCase(mimetype: string)
    ensures IsImageType(Lower(mimetype)) <==> IsImageType(mimetype)
  {
    if |mimetype| >= 6 {
      var l := Lower(mimetype);
      LowerPrefix(mimetype, 6);
      LowerPrefix(l, 6);
      assert Lower(l[..6]) == l[..6] by {
        forall i | 0 <= i < 6 ensures Lower(l[..6])[i] == l[..6][i] {
        }
      }
    }
  }

  /** The last `/`-free segment of `p` (empty when `p` ends in `/`). */
  function LastSegment(p: string): (r: string)
    ensures '/' !in r
    ensures '/' !in p ==> r == p
  {
    if p == [] || p[|p| - 1] == '/' then []
    else LastSegment(p[..|p| - 1]) + [p[|p| - 1]]
  }

  /** `p` without its trailing `/` characters. */
  function TrimTrailingSlashes(p: string): (r: string)
    ensures r <= p
    ensures r == [] || r[|r| - 1] != '/'
    ensures forall i :: |r| <= i < |p| ==> p[i] == '/'
  {
    if p != [] && p[|p| - 1] == '/' then TrimTrailingSlashes(p[..|p| - 1]) else p
  }

  /**
   * POSIX `path.basename`: trailing separators are ignored, then the part
   * after the last separator is returned.
   */
  function Basename(p: string): (r: string)
    ensures '/' !in r
    ensures '/' !in p ==> r == p
  {
    LastSegment(TrimTrailingSlashes(p))
  }

  /** The basename of a path joined from a directory and a plain name is that name. */
  lemma {:induction false} BasenameOfJoin(dir: string, name: string)
    requires name != [] && '/' !in name
    ensures Basename(dir + "/" + name) == name
  {
    var p := dir + "/" + name;
    assert TrimTrailingSlashes(p) == p;
    LastSegmentOfJoin(dir + "/", name);
  }

  lemma {:induction false} LastSegmentOfJoin(prefix: string, name: string)
    requires prefix != [] && prefix[|prefix| - 1] == '/' && '/' !in name
    ensures LastSegment(prefix + name) == name
  {
    if name == [] {
      assert prefix + name == prefix;
    } else {
      var n := name[..|name| - 1];
      assert (prefix + name)[..|prefix + name| - 1] == prefix + n;
      LastSegmentOfJoin(prefix, n);
      assert name == n + [name[|name| - 1]];
    }
  }
}
