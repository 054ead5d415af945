/** The string operations the core relies on: case folding, substring search
    and the last path component of a file URL. */
module Text {

  /** An ASCII capital letter. */
  predicate IsUpper(c: char) {
    'A' <= c <= 'Z'
  }

  /** Case folding of one character, ASCII letters only. */
  function LowerChar(c: char): char {
    if IsUpper(c) then (c as int + 32) as char else c
  }

  /** String.lowercased(), restricted to ASCII letters: the result has no
      capital letter left, and every character that is not a capital is kept. */
  function Lowercased(s: string): (r: string)
    ensures |r| == |s|
    ensures forall i :: 0 <= i < |r| ==> !IsUpper(r[i])
    ensures forall i :: 0 <= i < |s| && !IsUpper(s[i]) ==> r[i] == s[i]
    ensures forall i :: 0 <= i < |s| && IsUpper(s[i]) ==> r[i] as int == s[i] as int + 32
  {
    seq(|s|, i requires 0 <= i < |s| => LowerChar(s[i]))
  }

  /** `s` and `t` differ at most in the case of ASCII letters: at each position
      the characters are equal, or one is a capital and the other its small letter. */
  ghost predicate SameUpToCase(s: string, t: string) {
    && |s| == |t|
    && forall i :: 0 <= i < |s| ==>
      || s[i] == t[i]
      || (IsUpper(s[i]) && t[i] as int == s[i] as int + 32)
      || (IsUpper(t[i]) && s[i] as int == t[i] as int + 32)
  }

  /** Strings that differ only in letter case lowercase to the same string. */
  lemma LowercasedSameUpToCase(s: string, t: string)
    requires SameUpToCase(s, t)
    ensures Lowercased(s) == Lowercased(t)
  {
    var a, b := Lowercased(s), Lowercased(t);
    forall i | 0 <= i < |s| ensures a[i] == b[i] {
      if IsUpper(s[i]) && t[i] as int == s[i] as int + 32 {
        assert !IsUpper(t[i]);
      } else if IsUpper(t[i]) && s[i] as int == t[i] as int + 32 {
        assert !IsUpper(s[i]);
      }
    }
  }

  /** Lowercasing an already lowercased string changes nothing. */
  lemma LowercasedIdempotent(s: string)
    ensures Lowercased(Lowercased(s)) == Lowercased(s)
  {
    var r := Lowercased(s);
    assert forall i :: 0 <= i < |r| ==> Lowercased(r)[i] == r[i];
  }

  /** `t` occurs in `s` starting at position i. */
  ghost predicate OccursAt(s: string, t: string, i: int) {
    0 <= i && i + |t| <= |s| && s[i..i + |t|] == t
  }

  /** String.contains(_:): `t` is a prefix of `s` or of one of its suffixes. */
  function Contains(s: string, t: string): bool
    decreases |s|
  {
    t <= s || (|s| > 0 && Contains(s[1..], t))
  }

  /** Contains is substring search: it holds exactly when `t` occurs somewhere in `s`. */
  lemma {:induction false} ContainsIff(s: string, t: string)
    ensures Contains(s, t) <==> exists i :: OccursAt(s, t, i)
    decreases |s|
  {
    if t <= s {
      assert s[0..|t|] == t;
      assert OccursAt(s, t, 0);
    } else if |s| == 0 {
    } else {
      ContainsIff(s[1..], t);
      if Contains(s[1..], t) {
        var i :| OccursAt(s[1..], t, i);
        TailSlice(s, i, |t|);
        assert OccursAt(s, t, i + 1);
      }
      if i :| OccursAt(s, t, i) {
        if i == 0 {
          assert false;
        }
        TailSlice(s, i - 1, |t|);
        assert OccursAt(s[1..], t, i - 1);
      }
    }
  }

  lemma TailSlice(s: string, i: nat, n: nat)
    requires 0 < |s| && i + n <= |s| - 1
    ensures s[1..][i..i + n] == s[i + 1..i + 1 + n]
  {
    var u, v := s[1..][i..i + n], s[i + 1..i + 1 + n];
    assert |u| == n == |v|;
    forall k | 0 <= k < n ensures u[k] == v[k] {
      assert u[k] == s[1..][i + k] == s[i + 1 + k];
    }
  }

  /** URL.lastPathComponent, on a path written as a string: the text after
      the last '/', or the whole path when it has none. */
  function LastPathComponent(path: string): string
  {
    if path == [] then []
    else if path[|path| - 1] == '/' then []
    else LastPathComponent(path[..|path| - 1]) + [path[|path| - 1]]
  }

  /** The last path component is the longest suffix without a '/': a suffix
      of the path, free of '/', and either the whole path or preceded by '/'. */
  lemma {:induction false} LastPathComponentSpec(path: string)
    ensures var r := LastPathComponent(path);
      && |r| <= |path| && r == path[|path| - |r|..]
      && '/' !in r
      && (|r| == |path| || path[|path| - |r| - 1] == '/')
  {
    if path != [] && path[|path| - 1] != '/' {
      var init := path[..|path| - 1];
      LastPathComponentSpec(init);
      var r0 := LastPathComponent(init);
      assert path[|path| - |r0| - 1..] == init[|init| - |r0|..] + [path[|path| - 1]];
      if |r0| < |init| {
        assert path[|path| - |r0| - 2] == init[|init| - |r0| - 1];
      }
    }
  }

  /** For a URL `dir/name` whose file name has no '/', the last path
      component, which is what a post stores as its image path, is `name`. */
  lemma LastPathComponentOfJoined(dir: string, name: string)
    requires '/' !in name
    ensures LastPathComponent(dir + "/" + name) == name
  {
    var path := dir + "/" + name;
    var r := LastPathComponent(path);
    LastPathComponentSpec(path);
    assert path[|path| - |name|..] == name;
    assert path[|path| - |name| - 1] == '/';
    if |r| != |name| {
      assert false;
    }
  }
}
