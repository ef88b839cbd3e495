/**
 * `ParserInfo.code_special_case`: the provider-specific rules that turn an
 * upper-cased video code into the key used for the enrichment lookup. The
 * rules are tried in order and the first whose marker occurs decides.
 */
module CodeNormalizer {
  import opened Wrappers
  import opened Text

  /** `t` is digits, then `sep` at index `m`, then digits, with both runs non-empty. */
  predicate SplitsAt(t: string, m: int, sep: char) {
    && 0 < m < |t| - 1
    && t[m] == sep
    && forall q :: 0 <= q < |t| && q != m ==> IsDigit(t[q])
  }

  /** `t` matches `[0-9]+-[0-9]+` as a whole: digits, one hyphen, digits. */
  predicate IsDigitPair(t: string) {
    exists m | 0 < m < |t| - 1 :: SplitsAt(t, m, '-')
  }

  /** `t` is digits, one underscore, digits: a digit pair after its hyphen was replaced. */
  predicate IsUnderscoredPair(t: string) {
    exists m | 0 < m < |t| - 1 :: SplitsAt(t, m, '_')
  }

  /** No substring of `s` is a digit pair. */
  predicate NoDigitPair(s: string) {
    forall i, k :: 0 <= i < k <= |s| ==> !IsDigitPair(s[i..k])
  }

  /** The end of the longest run of digits that starts at `i`. */
  function DigitRunEnd(s: string, i: nat): (j: nat)
    requires i <= |s|
    ensures i <= j <= |s|
    ensures forall k :: i <= k < j ==> IsDigit(s[k])
    ensures j == |s| || !IsDigit(s[j])
    decreases |s| - i
  {
    if i < |s| && IsDigit(s[i]) then DigitRunEnd(s, i + 1) else i
  }

  /**
   * Where a match of `[0-9]+-[0-9]+` that starts at `i` ends, if there is
   * one. Both digit runs are greedy; giving back digits of the first run
   * cannot help, since a digit is never a hyphen.
   */
  function MatchAt(s: string, i: nat): Option<nat>
    requires i <= |s|
  {
    var j := DigitRunEnd(s, i);
    if i < j && j + 1 < |s| && s[j] == '-' && IsDigit(s[j + 1]) then Some(DigitRunEnd(s, j + 1))
    else None
  }

  lemma MatchAtSound(s: string, i: nat)
    requires i <= |s| && MatchAt(s, i).Some?
    ensures i < MatchAt(s, i).value <= |s|
    ensures IsDigitPair(s[i..MatchAt(s, i).value])
    ensures MatchAt(s, i).value == |s| || !IsDigit(s[MatchAt(s, i).value])
  {
    var j := DigitRunEnd(s, i);
    var k := DigitRunEnd(s, j + 1);
    assert MatchAt(s, i) == Some(k);
    var t := s[i..k];
    assert SplitsAt(t, j - i, '-');
  }

  /** Every digit pair that starts at `i` is found by the match there, which is at least as long. */
  lemma MatchAtComplete(s: string, i: nat, k: nat)
    requires i < k <= |s| && IsDigitPair(s[i..k])
    ensures MatchAt(s, i).Some? && k <= MatchAt(s, i).value
  {
    var m := HyphenOf(s, i, k);
    DigitRunEndExact(s, i, m);
    DigitRunEndAtLeast(s, m + 1, k);
  }

  /** A digit pair at `i` that cannot be extended to the right is exactly the match at `i`. */
  lemma MatchAtWhole(s: string, i: nat, k: nat)
    requires i < k <= |s| && IsDigitPair(s[i..k]) && (k == |s| || !IsDigit(s[k]))
    ensures MatchAt(s, i) == Some(k)
  {
    var m := HyphenOf(s, i, k);
    DigitRunEndExact(s, i, m);
    DigitRunEndExact(s, m + 1, k);
  }

  /** The hyphen of a digit pair `s[i..k]`, as an index into `s`. */
  lemma HyphenOf(s: string, i: nat, k: nat) returns (m: nat)
    requires i < k <= |s| && IsDigitPair(s[i..k])
    ensures i < m && m + 1 < k && s[m] == '-'
    ensures forall q :: i <= q < k && q != m ==> IsDigit(s[q])
  {
    var t := s[i..k];
    var h :| 0 < h < |t| - 1 && SplitsAt(t, h, '-');
    m := i + h;
    forall q | i <= q < k && q != m ensures IsDigit(s[q]) { assert s[q] == t[q - i]; }
  }

  lemma DigitRunEndExact(s: string, i: nat, j: nat)
    requires i <= j <= |s| && (j == |s| || !IsDigit(s[j]))
    requires forall q :: i <= q < j ==> IsDigit(s[q])
    ensures DigitRunEnd(s, i) == j
  {
    DigitRunEndAtLeast(s, i, j);
  }

  lemma DigitRunEndAtLeast(s: string, i: nat, k: nat)
    requires i <= k <= |s|
    requires forall q :: i <= q < k ==> IsDigit(s[q])
    ensures k <= DigitRunEnd(s, i)
  {
  }

  /** A match that starts after a digit also starts one place earlier. */
  lemma MatchAtAfterDigit(s: string, i: nat)
    requires 0 < i <= |s| && IsDigit(s[i - 1])
    ensures MatchAt(s, i - 1) == MatchAt(s, i) || (i == DigitRunEnd(s, i) && MatchAt(s, i).None?)
  {
  }

  /** The leftmost match at or after `i`, as `re.search` scans. */
  function SearchFrom(s: string, i: nat): (r: Option<(nat, nat)>)
    requires i <= |s|
    ensures r.Some? ==> i <= r.value.0 <= |s| && MatchAt(s, r.value.0) == Some(r.value.1)
    ensures r.Some? ==> forall j :: i <= j < r.value.0 ==> MatchAt(s, j).None?
    ensures r.None? ==> forall j :: i <= j <= |s| ==> MatchAt(s, j).None?
    decreases |s| - i
  {
    if i == |s| then None
    else match MatchAt(s, i)
      case Some(k) => Some((i, k))
      case None => SearchFrom(s, i + 1)
  }

  /** `re.search('([0-9]+-[0-9]+)', s)`: start and end of the match, if any. */
  function FindDigitPair(s: string): Option<(nat, nat)> {
    SearchFrom(s, 0)
  }

  /**
   * The search returns the first digit pair of `s`, taken whole: nothing
   * matches further left, and neither end can be extended by a digit. It
   * returns nothing exactly when `s` holds no digit pair at all.
   */
  lemma FindDigitPairSpec(s: string)
    ensures FindDigitPair(s).None? <==> NoDigitPair(s)
    ensures FindDigitPair(s).Some? ==>
      var (i, k) := FindDigitPair(s).value;
      && i < k <= |s|
      && IsDigitPair(s[i..k])
      && (forall j, l :: 0 <= j < i && j < l <= |s| ==> !IsDigitPair(s[j..l]))
      && (i == 0 || !IsDigit(s[i - 1]))
      && (k == |s| || !IsDigit(s[k]))
  {
    match FindDigitPair(s)
    case None =>
      forall i, k | 0 <= i < k <= |s| ensures !IsDigitPair(s[i..k]) {
        if IsDigitPair(s[i..k]) { MatchAtComplete(s, i, k); }
      }
    case Some((i, k)) =>
      MatchAtSound(s, i);
      assert !NoDigitPair(s);
      forall j, l | 0 <= j < i && j < l <= |s| ensures !IsDigitPair(s[j..l]) {
        if IsDigitPair(s[j..l]) { MatchAtComplete(s, j, l); }
      }
      forall j | 0 < j <= i && IsDigit(s[j - 1])
        ensures MatchAt(s, j - 1) == MatchAt(s, j) || (j == DigitRunEnd(s, j) && MatchAt(s, j).None?)
      {
        MatchAtAfterDigit(s, j);
      }
  }

  /** `str.replace('-', '_')`. */
  function HyphenToUnderscore(t: string): (r: string)
    ensures |r| == |t|
    ensures forall k :: 0 <= k < |t| ==> r[k] == (if t[k] == '-' then '_' else t[k])
  {
    seq(|t|, k requires 0 <= k < |t| => if t[k] == '-' then '_' else t[k])
  }

  /** Markers that send a code to the underscore rule. */
  const UnderscoreMarkers: seq<string> := ["CARIBPR", "PACO", "10MU", "1PONDO"]

  predicate HasUnderscoreMarker(code: string) {
    exists mk | mk in UnderscoreMarkers :: Contains(code, mk)
  }

  /** Which rule of `code_special_case` decides for `code`. */
  datatype Rule = TokyoHot | Gachinco | Carib | Underscored | Unchanged

  function RuleFor(code: string): Rule {
    if Contains(code, "TOKYO-HOT") then TokyoHot
    else if Contains(code, "GACHINCO") then Gachinco
    else if Contains(code, "CARIB") && !Contains(code, "CARIBPR") then Carib
    else if HasUnderscoreMarker(code) then Underscored
    else Unchanged
  }

  /**
   * `code_special_case(code)`. The fourth rule has no `return` on its
   * no-match path; Python then returns `None`, as the third rule does
   * explicitly.
   */
  function Normalize(code: string): Option<string> {
    match RuleFor(code)
    case TokyoHot => Some(RemoveAll(code, "TOKYO-HOT-"))
    case Gachinco => Some(RemoveAll(code, "GACHINCO-"))
    case Carib =>
      (match FindDigitPair(code)
       case None => None
       case Some((i, k)) => Some(code[i..k]))
    case Underscored =>
      (match FindDigitPair(code)
       case None => None
       case Some((i, k)) => Some(HyphenToUnderscore(code[i..k])))
    case Unchanged => Some(code)
  }

  /**
   * A code with `TOKYO-HOT` in it keeps everything but its `TOKYO-HOT-`
   * occurrences, whatever other marker it has; it is left as it is exactly
   * when the marker is not followed by a hyphen anywhere.
   */
  lemma NormalizeTokyoHot(code: string)
    requires Contains(code, "TOKYO-HOT")
    ensures Normalize(code).Some?
    ensures Normalize(code).value == code <==> !Contains(code, "TOKYO-HOT-")
    ensures multiset(Normalize(code).value) <= multiset(code)
  {
    RemoveAllUnchanged(code, "TOKYO-HOT-");
    RemoveAllDeletesOnly(code, "TOKYO-HOT-");
  }

  /** The same for `GACHINCO`, when `TOKYO-HOT` is absent. */
  lemma NormalizeGachinco(code: string)
    requires !Contains(code, "TOKYO-HOT") && Contains(code, "GACHINCO")
    ensures Normalize(code).Some?
    ensures Normalize(code).value == code <==> !Contains(code, "GACHINCO-")
    ensures multiset(Normalize(code).value) <= multiset(code)
  {
    RemoveAllUnchanged(code, "GACHINCO-");
    RemoveAllDeletesOnly(code, "GACHINCO-");
  }

  /**
   * Which characters rule 1 removes: with the first `TOKYO-HOT-` right after
   * `a`, the search code is `a` followed by `b` with its own `TOKYO-HOT-`
   * occurrences removed.
   */
  lemma NormalizeTokyoHotFirst(a: string, b: string)
    requires !Contains(a + "TOKYO-HOT", "TOKYO-HOT-")
    ensures Normalize(a + "TOKYO-HOT-" + b) == Some(a + RemoveAll(b, "TOKYO-HOT-"))
  {
    var code := a + "TOKYO-HOT-" + b;
    assert code[|a|..|a| + 9] == "TOKYO-HOT";
    assert OccursAt(code, "TOKYO-HOT", |a|);
    assert "TOKYO-HOT-"[..9] == "TOKYO-HOT";
    RemoveAllFirst(a, "TOKYO-HOT-", b);
  }

  /** The same for rule 2 and `GACHINCO-`, when `TOKYO-HOT` is absent. */
  lemma NormalizeGachincoFirst(a: string, b: string)
    requires !Contains(a + "GACHINCO-" + b, "TOKYO-HOT")
    requires !Contains(a + "GACHINCO", "GACHINCO-")
    ensures Normalize(a + "GACHINCO-" + b) == Some(a + RemoveAll(b, "GACHINCO-"))
  {
    var code := a + "GACHINCO-" + b;
    assert code[|a|..|a| + 8] == "GACHINCO";
    assert OccursAt(code, "GACHINCO", |a|);
    assert "GACHINCO-"[..8] == "GACHINCO";
    RemoveAllFirst(a, "GACHINCO-", b);
  }

  /** A digit pair holds no letter, so no marker survives in it. */
  lemma DigitPairHasNoMarker(t: string, mk: string)
    requires IsDigitPair(t) && mk != [] && !IsDigit(mk[0]) && mk[0] != '-'
    ensures !Contains(t, mk)
  {
    var m :| 0 < m < |t| - 1 && SplitsAt(t, m, '-');
    forall i | 0 <= i <= |t| - |mk| ensures !OccursAt(t, mk, i) {
      assert t[i..i + |mk|][0] == t[i];
    }
  }

  /**
   * A `CARIB` code (not `CARIBPR`, and no earlier marker) yields the first
   * whole digit pair of the code, or nothing exactly when there is none; the
   * marker never survives.
   */
  lemma NormalizeCarib(code: string)
    requires !Contains(code, "TOKYO-HOT") && !Contains(code, "GACHINCO")
    requires Contains(code, "CARIB") && !Contains(code, "CARIBPR")
    ensures Normalize(code).None? <==> NoDigitPair(code)
    ensures Normalize(code).Some? ==>
      && IsDigitPair(Normalize(code).value)
      && !Contains(Normalize(code).value, "CARIB")
      && exists i, k :: IsFirstWholePair(code, i, k) && Normalize(code).value == code[i..k]
  {
    FindDigitPairSpec(code);
    if FindDigitPair(code).Some? {
      var (i, k) := FindDigitPair(code).value;
      DigitPairHasNoMarker(code[i..k], "CARIB");
      assert IsFirstWholePair(code, i, k);
    }
  }

  /** `code[i..k]` is the leftmost digit pair of `code`, with both ends maximal. */
  predicate IsFirstWholePair(code: string, i: int, k: int) {
    && 0 <= i < k <= |code|
    && IsDigitPair(code[i..k])
    && (forall j, l :: 0 <= j < i && j < l <= |code| ==> !IsDigitPair(code[j..l]))
    && (k == |code| || !IsDigit(code[k]))
  }

  /**
   * A code under one of `CARIBPR`, `PACO`, `10MU`, `1PONDO` (and no earlier
   * marker) yields the first whole digit pair with `_` for its hyphen, or
   * nothing exactly when the code has no digit pair.
   */
  lemma NormalizeUnderscored(code: string)
    requires !Contains(code, "TOKYO-HOT") && !Contains(code, "GACHINCO")
    requires !(Contains(code, "CARIB") && !Contains(code, "CARIBPR"))
    requires HasUnderscoreMarker(code)
    ensures Normalize(code).None? <==> NoDigitPair(code)
    ensures Normalize(code).Some? ==>
      && IsUnderscoredPair(Normalize(code).value)
      && exists i, k :: IsFirstWholePair(code, i, k) && Normalize(code).value == HyphenToUnderscore(code[i..k])
  {
    FindDigitPairSpec(code);
    if FindDigitPair(code).Some? {
      var (i, k) := FindDigitPair(code).value;
      UnderscoredShape(code[i..k]);
      assert IsFirstWholePair(code, i, k);
    }
  }

  /** Replacing the hyphen of a digit pair gives digits, one underscore, digits. */
  lemma UnderscoredShape(t: string)
    requires IsDigitPair(t)
    ensures IsUnderscoredPair(HyphenToUnderscore(t))
  {
    var m :| 0 < m < |t| - 1 && SplitsAt(t, m, '-');
    assert SplitsAt(HyphenToUnderscore(t), m, '_');
  }

  /** A code with none of the markers is returned as it is. */
  lemma NormalizeUnchanged(code: string)
    requires !Contains(code, "TOKYO-HOT") && !Contains(code, "GACHINCO") && !Contains(code, "CARIB")
    requires forall mk :: mk in UnderscoreMarkers ==> !Contains(code, mk)
    ensures Normalize(code) == Some(code)
  {
  }

  /** The rule that decides for `CARIBPR-123456-789` is the underscore rule. */
  lemma CaribprSampleRule(s: string)
    requires s == "CARIBPR-123456-789"
    ensures RuleFor(s) == Underscored
  {
    assert OccursAt(s, "CARIBPR", 0) && OccursAt(s, "CARIB", 0);
    assert HasUnderscoreMarker(s) by { assert "CARIBPR" in UnderscoreMarkers; }
    assert !Contains(s, "TOKYO-HOT") by {
      forall i | 0 <= i <= |s| - 9 ensures !OccursAt(s, "TOKYO-HOT", i) {
        assert s[i..i + 9][0] == s[i] != 'T';
      }
    }
    assert !Contains(s, "GACHINCO") by {
      forall i | 0 <= i <= |s| - 8 ensures !OccursAt(s, "GACHINCO", i) {
        assert s[i..i + 8][0] == s[i] != 'G';
      }
    }
  }

  /** The digit pair of `CARIBPR-123456-789` is `123456-789`. */
  lemma CaribprSamplePair(s: string)
    requires s == "CARIBPR-123456-789"
    ensures FindDigitPair(s) == Some((8, 18))
  {
    assert IsDigitPair(s[8..18]) by {
      assert SplitsAt(s[8..18], 6, '-');
    }
    MatchAtWhole(s, 8, 18);
    forall j | 0 <= j < 8 ensures MatchAt(s, j).None? { assert !IsDigit(s[j]); }
  }

  /** A `CARIBPR` code keeps its digit pair, with `_` for the hyphen. */
  lemma NormalizeCaribprExample(s: string)
    requires s == "CARIBPR-123456-789"
    ensures Normalize(s) == Some("123456_789")
  {
    CaribprSampleRule(s);
    CaribprSamplePair(s);
    var u := HyphenToUnderscore(s[8..18]);
    assert Normalize(s) == Some(u);
    assert s[8..18] == "123456-789";
    assert u == "123456_789";
  }
}
