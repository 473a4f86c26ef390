/**
 * `os.path.splitext` as the POSIX flavour of Python's path module defines it:
 * the extension starts at the last '.' of the last path component, unless
 * everything in that component before the dot is itself a dot.
 */
module PosixPath {
  import opened PyStr

  predicate AllDots(s: string) { forall i :: 0 <= i < |s| ==> s[i] == '.' }

  /** `os.path.splitext(p)`, returning `(root, ext)`. */
  function SplitExt(p: string): (parts: (string, string))
    ensures parts.0 + parts.1 == p
  {
    var sep := RFind(p, '/');
    var dot := RFind(p, '.');
    if dot > sep && !AllDots(p[sep + 1..dot]) then (p[..dot], p[dot..]) else (p, "")
  }

  /** The extension is empty, or one '.' followed by text holding neither '.' nor '/'. */
  lemma SplitExtShape(p: string)
    ensures var ext := SplitExt(p).1;
      ext == [] || (ext[0] == '.' && '/' !in ext && '.' !in ext[1..])
  {
    var sep := RFind(p, '/');
    var dot := RFind(p, '.');
    var ext := SplitExt(p).1;
    if ext != [] {
      forall i | 0 <= i < |ext| ensures ext[i] != '/' && (i > 0 ==> ext[i] != '.') {
        assert ext[i] == p[dot + i];
      }
      assert forall i :: 0 <= i < |ext[1..]| ==> ext[1..][i] == ext[i + 1];
    }
  }

  /** Splitting off the extension leaves the directory part with the root. */
  lemma StemKeepsDirectory(p: string)
    ensures '/' !in SplitExt(p).1
    ensures RFind(SplitExt(p).0, '/') == RFind(p, '/')
  {
    SplitExtShape(p);
    var (stem, ext) := SplitExt(p);
    assert stem + ext == p;
    RFindAppendWithout(stem, ext, '/');
  }

  /** The start of the last path component: one past the last '/'. */
  function BaseStart(p: string): (k: nat)
    ensures k <= |p|
  {
    RFind(p, '/') + 1
  }

  /** Some '.' of `s` at or after `lo` follows a character, also at or after `lo`, that is not a '.'. */
  predicate DotAfterNonDot(s: string, lo: nat)
  {
    exists i, j :: lo <= i < j < |s| && s[i] != '.' && s[j] == '.'
  }

  /**
   * There is an extension exactly when the last path component holds a '.'
   * somewhere after a character that is not a '.'.
   */
  lemma SplitExtHasExtension(p: string)
    ensures SplitExt(p).1 != [] <==> DotAfterNonDot(p, BaseStart(p))
  {
    if SplitExt(p).1 != [] {
      ExtensionWitness(p);
    }
    if DotAfterNonDot(p, BaseStart(p)) {
      var i, j :| BaseStart(p) <= i < j < |p| && p[i] != '.' && p[j] == '.';
      WitnessGivesExtension(p, i, j);
    }
  }

  lemma ExtensionWitness(p: string)
    requires SplitExt(p).1 != []
    ensures DotAfterNonDot(p, BaseStart(p))
  {
    var sep := RFind(p, '/');
    var dot := RFind(p, '.');
    var seg := p[sep + 1..dot];
    assert dot > sep && !AllDots(seg);
    SegmentWitness(p, BaseStart(p), dot);
  }

  lemma SegmentWitness(s: string, lo: nat, hi: int)
    requires 0 <= lo <= hi < |s| && s[hi] == '.'
    requires !AllDots(s[lo..hi])
    ensures DotAfterNonDot(s, lo)
  {
    var seg := s[lo..hi];
    var j :| 0 <= j < |seg| && seg[j] != '.';
    assert s[lo + j] == seg[j];
  }

  lemma WitnessGivesExtension(p: string, i: int, j: int)
    requires BaseStart(p) <= i < j < |p| && p[i] != '.' && p[j] == '.'
    ensures SplitExt(p).1 != []
  {
    var sep := RFind(p, '/');
    var dot := RFind(p, '.');
    assert j <= dot;
    var seg := p[sep + 1..dot];
    assert seg[i - sep - 1] == p[i];
    assert !AllDots(seg);
  }

  /**
   * Appending text with neither '.' nor '/' to a path that has no extension
   * gives a path that still has none.
   */
  lemma SplitExtAppendPlain(p: string, mid: string)
    requires SplitExt(p).1 == []
    requires '.' !in mid && '/' !in mid
    ensures SplitExt(p + mid) == (p + mid, [])
  {
    var q := p + mid;
    var sep := RFind(p, '/');
    var dot := RFind(p, '.');
    RFindAppendWithout(p, mid, '/');
    RFindAppendWithout(p, mid, '.');
    assert dot > sep ==> q[sep + 1..dot] == p[sep + 1..dot];
  }

  /**
   * Inserting text with neither '.' nor '/', and not empty, between the root
   * and a non-empty extension leaves that extension in place.
   */
  lemma SplitExtInsertBeforeExtension(p: string, mid: string)
    requires SplitExt(p).1 != []
    requires mid != [] && '.' !in mid && '/' !in mid
    ensures SplitExt(SplitExt(p).0 + mid + SplitExt(p).1) == (SplitExt(p).0 + mid, SplitExt(p).1)
  {
    var stem, ext := SplitExt(p).0, SplitExt(p).1;
    var q := stem + mid + ext;
    SplitExtShape(p);
    var sep := RFind(p, '/');
    var dot := RFind(p, '.');
    assert stem == p[..dot] && |stem| == dot;
    RFindInsertWithout(stem, mid, ext, '/');
    assert RFind(q, '/') == sep;
    var dot' := |stem + mid|;
    assert q[dot'] == '.';
    forall i | dot' < i < |q| ensures q[i] != '.' {
      assert q[i] == ext[1..][i - dot' - 1];
    }
    RFindIs(q, '.', dot');
    assert q[sep + 1..dot'][|stem| - sep - 1] == mid[0];
    assert q[..dot'] == stem + mid;
    assert q[dot'..] == ext;
  }
}
