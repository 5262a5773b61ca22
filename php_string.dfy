/** The string helpers the binding code relies on: Laravel's starts_with and
    class_basename, PHP's str_replace, strtolower and the `empty` test on a
    string. */
module PhpString {

  /** starts_with($s, $p). */
  predicate StartsWith(s: string, p: string) {
    |p| <= |s| && s[..|p|] == p
  }

  /** `p` occurs somewhere in `s`. */
  predicate Contains(s: string, p: string) {
    exists i :: 0 <= i <= |s| && StartsWith(s[i..], p)
  }

  /** str_replace($p, $t, $s): scans `s` from the left and replaces every
      non-overlapping occurrence of `p` by `t`; an empty search string leaves
      the subject as it is. */
  function Replace(s: string, p: string, t: string): string
    decreases |s|
  {
    if p == [] || s == [] then s
    else if StartsWith(s, p) then t + Replace(s[|p|..], p, t)
    else [s[0]] + Replace(s[1..], p, t)
  }

  /** PHP's `empty` on a string: true for "" and for "0". */
  predicate PhpEmpty(s: string) {
    s == "" || s == "0"
  }

  /** strtolower on ASCII letters; every other character is kept. */
  function ToLower(s: string): string {
    seq(|s|, i requires 0 <= i < |s| => if 'A' <= s[i] <= 'Z' then (s[i] as int + 32) as char else s[i])
  }

  /** strtolower keeps the length and changes exactly the ASCII upper-case
      letters, each to its lower-case counterpart. */
  lemma ToLowerChars(s: string)
    ensures |ToLower(s)| == |s|
    ensures forall i :: 0 <= i < |s| ==> (ToLower(s)[i] == s[i] <==> !('A' <= s[i] <= 'Z'))
    ensures forall i :: 0 <= i < |s| && 'A' <= s[i] <= 'Z' ==> ToLower(s)[i] as int == s[i] as int + 32
  {
  }

  /** class_basename: the part of a namespaced class name after its last
      backslash. */
  function ClassBasename(name: string): string
    decreases |name|
  {
    if name == [] || name[|name| - 1] == '\\' then []
    else ClassBasename(name[..|name| - 1]) + [name[|name| - 1]]
  }

  /** class_basename is the whole suffix after the last backslash: a suffix
      of the name without a backslash, preceded by one unless it is the
      whole name. */
  lemma {:induction false} ClassBasenameSuffix(name: string)
    ensures var r := ClassBasename(name);
      && '\\' !in r
      && |r| <= |name| && r == name[|name| - |r|..]
      && (|r| < |name| ==> name[|name| - |r| - 1] == '\\')
    decreases |name|
  {
    if name != [] && name[|name| - 1] != '\\' {
      var init, c := name[..|name| - 1], name[|name| - 1];
      ClassBasenameSuffix(init);
      var r := ClassBasename(init);
      assert ClassBasename(name) == r + [c];
      assert name[|init| - |r|..] == init[|init| - |r|..] + [c];
      if |r| < |init| {
        assert name[|init| - |r| - 1] == init[|init| - |r| - 1];
      }
    }
  }

  /** Replacing in a string that does not hold the search string changes
      nothing. */
  lemma {:induction false} ReplaceAbsent(s: string, p: string, t: string)
    requires !Contains(s, p)
    ensures Replace(s, p, t) == s
    decreases |s|
  {
    if p != [] && s != [] {
      assert s[0..] == s;
      assert !StartsWith(s, p);
      assert !Contains(s[1..], p) by {
        forall i | 0 <= i <= |s[1..]| ensures !StartsWith(s[1..][i..], p) {
          assert s[1..][i..] == s[i + 1..];
        }
      }
      ReplaceAbsent(s[1..], p, t);
    }
  }

  /** A string without the first character of `p` does not contain `p`. */
  lemma FirstCharAbsent(s: string, p: string)
    requires p != [] && p[0] !in s
    ensures !Contains(s, p)
  {
    forall i | 0 <= i <= |s| ensures !StartsWith(s[i..], p) {
      if i < |s| {
        assert s[i..][0] == s[i];
      }
    }
  }

  /** A leading occurrence is replaced and the scan goes on after it. */
  lemma ReplaceLeading(p: string, s: string, t: string)
    requires p != []
    ensures Replace(p + s, p, t) == t + Replace(s, p, t)
  {
  }

  /** When `c` holds no dot, `c_` cannot occur in `c.f` except inside `f`. */
  lemma DotJoinAvoids(c: string, f: string)
    requires '.' !in c
    requires !Contains(f, c + "_")
    ensures !Contains(c + "." + f, c + "_")
  {
    var s, p := c + "." + f, c + "_";
    forall i | 0 <= i <= |s| ensures !StartsWith(s[i..], p) {
      if i <= |c| {
        // the dot at position |c| of s would have to match a letter of c or the underscore
        var j := |c| - i;
        assert s[i..][j] == '.';
        assert j < |c| ==> p[j] == c[j];
        assert p[j] != '.';
        assert |p| <= |s[i..]| ==> s[i..][..|p|][j] != p[j];
      } else {
        assert s[i..] == f[i - |c| - 1..];
      }
    }
  }
}
