/**
 * Character classes and the literal string operations the identifier
 * normaliser and the URL cleaner are built from: substring search, removal of
 * every occurrence of a literal (`re.sub` with a pattern that has no regex
 * metacharacter), upper-casing and removal of whitespace.
 */
module Text {

  predicate IsDigit(c: char) {
    '0' <= c <= '9'
  }


  /** The characters Python's `str.split()` with no argument splits on. */
  predicate IsSpace(c: char) {
    c in {'\t', '\n', '\U{B}', '\U{C}', '\r', '\U{1C}', '\U{1D}', '\U{1E}', '\U{1F}', ' ',
          '\U{85}', '\U{A0}', '\U{1680}', '\U{2000}', '\U{2001}', '\U{2002}', '\U{2003}',
          '\U{2004}', '\U{2005}', '\U{2006}', '\U{2007}', '\U{2008}', '\U{2009}', '\U{200A}',
          '\U{2028}', '\U{2029}', '\U{202F}', '\U{205F}', '\U{3000}'}
  }

  predicate IsLowerAscii(c: char) {
    'a' <= c <= 'z'
  }

  predicate StartsWith(s: string, p: string) {
    |p| <= |s| && s[..|p|] == p
  }

  /** `p` occurs in `s` starting at index `i`. */
  predicate OccursAt(s: string, p: string, i: int) {
    0 <= i && i + |p| <= |s| && s[i..i + |p|] == p
  }

  /** Python's `p in s`. */
  predicate Contains(s: string, p: string) {
    exists i | 0 <= i <= |s| - |p| :: OccursAt(s, p, i)
  }

  lemma ContainsTail(s: string, p: string)
    requires s != [] && !StartsWith(s, p)
    ensures Contains(s, p) <==> Contains(s[1..], p)
  {
    if Contains(s, p) {
      var i :| 0 <= i <= |s| - |p| && OccursAt(s, p, i);
      assert i != 0;
      assert s[1..][i - 1..i - 1 + |p|] == s[i..i + |p|];
      assert OccursAt(s[1..], p, i - 1);
    }
    if Contains(s[1..], p) {
      var i :| 0 <= i <= |s| - 1 - |p| && OccursAt(s[1..], p, i);
      assert s[1..][i..i + |p|] == s[i + 1..i + 1 + |p|];
      assert OccursAt(s, p, i + 1);
    }
  }

  /**
   * `re.sub(p, '', s)` for a literal `p`: scanning left to right, every
   * occurrence that does not overlap an earlier removed one is deleted.
   */
  function RemoveAll(s: string, p: string): (r: string)
    requires p != []
    ensures |r| <= |s|
    ensures Contains(s, p) ==> |r| < |s|
    decreases |s|
  {
    if s == [] then []
    else if StartsWith(s, p) then
      assert OccursAt(s, p, 0);
      RemoveAll(s[|p|..], p)
    else
      ContainsTail(s, p);
      [s[0]] + RemoveAll(s[1..], p)
  }

  /** Removal changes the string exactly when the literal occurs in it. */
  lemma {:induction false} RemoveAllUnchanged(s: string, p: string)
    requires p != []
    ensures RemoveAll(s, p) == s <==> !Contains(s, p)
    decreases |s|
  {
    if s != [] && !Contains(s, p) {
      assert !StartsWith(s, p) by { if StartsWith(s, p) { assert OccursAt(s, p, 0); } }
      ContainsTail(s, p);
      RemoveAllUnchanged(s[1..], p);
    }
  }

  /** Removal only deletes characters: it never introduces one. */
  lemma {:induction false} RemoveAllDeletesOnly(s: string, p: string)
    requires p != []
    ensures multiset(RemoveAll(s, p)) <= multiset(s)
    decreases |s|
  {
    if s == [] {
    } else if StartsWith(s, p) {
      RemoveAllDeletesOnly(s[|p|..], p);
      assert s == s[..|p|] + s[|p|..];
    } else {
      RemoveAllDeletesOnly(s[1..], p);
      assert s == [s[0]] + s[1..];
    }
  }

  /** An occurrence in the tail of `s` is an occurrence in `s`. */
  lemma ContainsDrop(s: string, p: string)
    requires s != [] && !Contains(s, p)
    ensures !Contains(s[1..], p)
  {
    forall i | 0 <= i <= |s[1..]| - |p| && OccursAt(s[1..], p, i)
      ensures false
    {
      assert s[i + 1..i + 1 + |p|] == s[1..][i..i + |p|];
      assert OccursAt(s, p, i + 1);
    }
  }

  /**
   * Removal is leftmost first: when the first occurrence of `p` in
   * `a + p + b` is the one after `a`, everything before it is kept, it is
   * deleted, and removal carries on in `b`.
   */
  lemma {:induction false} RemoveAllFirst(a: string, p: string, b: string)
    requires p != [] && !Contains(a + p[..|p| - 1], p)
    ensures RemoveAll(a + p + b, p) == a + RemoveAll(b, p)
    decreases |a|
  {
    var s := a + p + b;
    if a == [] {
      assert s == p + b && s[|p|..] == b;
      assert StartsWith(s, p);
    } else {
      var pre := a + p[..|p| - 1];
      assert !StartsWith(s, p) by {
        if StartsWith(s, p) {
          assert pre[..|p|] == s[..|p|];
          assert OccursAt(pre, p, 0);
        }
      }
      assert s[1..] == a[1..] + p + b;
      assert pre[1..] == a[1..] + p[..|p| - 1];
      ContainsDrop(pre, p);
      RemoveAllFirst(a[1..], p, b);
      assert a == [a[0]] + a[1..];
    }
  }

  function UpperChar(c: char): (u: char)
    ensures !IsLowerAscii(u)
    ensures IsLowerAscii(c) ==> u == (c as int - 32) as char
    ensures !IsLowerAscii(c) ==> u == c
  {
    if IsLowerAscii(c) then (c as int - 'a' as int + 'A' as int) as char else c
  }

  /** `str.upper()`, restricted to ASCII letters. */
  function ToUpper(s: string): (r: string)
    ensures |r| == |s|
    ensures forall k :: 0 <= k < |r| ==> !IsLowerAscii(r[k])
    ensures forall k :: 0 <= k < |s| && IsLowerAscii(s[k]) ==> r[k] == (s[k] as int - 32) as char
    ensures forall k :: 0 <= k < |s| && !IsLowerAscii(s[k]) ==> r[k] == s[k]
  {
    seq(|s|, k requires 0 <= k < |s| => UpperChar(s[k]))
  }

  /** Upper-casing twice is upper-casing once. */
  lemma ToUpperIdempotent(s: string)
    ensures ToUpper(ToUpper(s)) == ToUpper(s)
  {
  }

  /** `''.join(s.split())`: the string with every whitespace character removed. */
  function RemoveSpaces(s: string): string {
    if s == [] then []
    else if IsSpace(s[0]) then RemoveSpaces(s[1..])
    else [s[0]] + RemoveSpaces(s[1..])
  }

  /** A single whitespace character is removed, any other character kept. */
  lemma RemoveSpacesChar(c: char)
    ensures IsSpace(c) ==> RemoveSpaces([c]) == []
    ensures !IsSpace(c) ==> RemoveSpaces([c]) == [c]
  {
    assert [c][1..] == [];
  }

  /** What is left has no whitespace, and is no longer than what there was. */
  lemma {:induction false} RemoveSpacesNoSpace(s: string)
    ensures |RemoveSpaces(s)| <= |s|
    ensures forall k :: 0 <= k < |RemoveSpaces(s)| ==> !IsSpace(RemoveSpaces(s)[k])
    decreases |s|
  {
    if s != [] {
      RemoveSpacesNoSpace(s[1..]);
    }
  }

  /** Removal of whitespace keeps exactly the other characters, in order. */
  lemma {:induction false} RemoveSpacesAppend(s: string, t: string)
    ensures RemoveSpaces(s + t) == RemoveSpaces(s) + RemoveSpaces(t)
    decreases |s|
  {
    if s != [] {
      assert (s + t)[0] == s[0] && (s + t)[1..] == s[1..] + t;
      RemoveSpacesAppend(s[1..], t);
    } else {
      assert s + t == t;
    }
  }

  /** A string is left as it is exactly when it has no whitespace. */
  lemma {:induction false} RemoveSpacesUnchanged(s: string)
    ensures RemoveSpaces(s) == s <==> forall k :: 0 <= k < |s| ==> !IsSpace(s[k])
    decreases |s|
  {
    if s != [] {
      RemoveSpacesUnchanged(s[1..]);
      if IsSpace(s[0]) {
        RemoveSpacesNoSpace(s[1..]);
        assert |RemoveSpaces(s)| < |s|;
      } else {
        assert (forall k :: 0 <= k < |s| ==> !IsSpace(s[k])) <==>
          (forall k :: 0 <= k < |s[1..]| ==> !IsSpace(s[1..][k])) by {
          forall k | 1 <= k < |s| ensures s[k] == s[1..][k - 1] {}
        }
      }
    }
  }
}
