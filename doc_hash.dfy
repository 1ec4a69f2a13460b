/** The corpus fingerprint (`hash_docs`): the MD5 hex digest of the contents of
    all PDF files, read in sorted path order into one hash state. MD5 itself is a
    parameter: nothing here depends on how it mixes its input. */
module DocHash {
  import opened Wrappers
  import PyStr

  type byte = b: int | 0 <= b < 256

  /** Python's `a <= b` on `str`: lexicographic by code point, a prefix first. */
  predicate LexLe(a: string, b: string)
    decreases |a|
  {
    |a| == 0 || (|b| > 0 && (a[0] < b[0] || (a[0] == b[0] && LexLe(a[1..], b[1..]))))
  }

  lemma {:induction false} LexRefl(a: string)
    ensures LexLe(a, a)
    decreases |a|
  {
    if |a| > 0 { LexRefl(a[1..]); }
  }

  lemma {:induction false} LexTotal(a: string, b: string)
    ensures LexLe(a, b) || LexLe(b, a)
    decreases |a|
  {
    if |a| > 0 && |b| > 0 && a[0] == b[0] { LexTotal(a[1..], b[1..]); }
  }

  lemma {:induction false} LexAntisymmetric(a: string, b: string)
    requires LexLe(a, b) && LexLe(b, a)
    ensures a == b
    decreases |a|
  {
    if |a| > 0 {
      LexAntisymmetric(a[1..], b[1..]);
      assert a == [a[0]] + a[1..] && b == [b[0]] + b[1..];
    }
  }

  lemma {:induction false} LexTransitive(a: string, b: string, c: string)
    requires LexLe(a, b) && LexLe(b, c)
    ensures LexLe(a, c)
    decreases |a|
  {
    if |a| > 0 && a[0] == b[0] && b[0] == c[0] { LexTransitive(a[1..], b[1..], c[1..]); }
  }

  predicate Sorted(s: seq<string>) {
    forall i, j :: 0 <= i < j < |s| ==> LexLe(s[i], s[j])
  }

  lemma PrependSorted(x: string, s: seq<string>)
    requires Sorted(s)
    requires forall k :: 0 <= k < |s| ==> LexLe(x, s[k])
    ensures Sorted([x] + s)
  {
    var r := [x] + s;
    forall i, j | 0 <= i < j < |r| ensures LexLe(r[i], r[j]) {
      if i > 0 { assert r[i] == s[i - 1] && r[j] == s[j - 1]; }
    }
  }

  /** Inserts `x` into a sorted list, before the first element it is not above. */
  function Insert(x: string, s: seq<string>): (r: seq<string>)
    requires Sorted(s)
    ensures Sorted(r)
    ensures multiset(r) == multiset(s) + multiset{x}
  {
    if |s| == 0 then [x]
    else if LexLe(x, s[0]) then
      (forall k | 0 <= k < |s| ensures LexLe(x, s[k]) {
        if k > 0 { LexTransitive(x, s[0], s[k]); }
      }
      PrependSorted(x, s);
      assert s == [s[0]] + s[1..];
      [x] + s)
    else
      var rest := Insert(x, s[1..]);
      (forall k | 0 <= k < |rest| ensures LexLe(s[0], rest[k]) {
        assert rest[k] in multiset(rest);
        if rest[k] == x {
          LexTotal(x, s[0]);
        } else {
          assert rest[k] in s[1..];
          var m :| 0 <= m < |s[1..]| && s[1..][m] == rest[k];
          assert s[m + 1] == rest[k];
        }
      }
      PrependSorted(s[0], rest);
      assert s == [s[0]] + s[1..];
      [s[0]] + rest)
  }

  /** Python's `sorted(paths)`. Any sorting algorithm gives this result: on
      strings a sorted permutation is unique (`SortedUnique`). */
  function Sort(s: seq<string>): (r: seq<string>)
    ensures Sorted(r)
    ensures multiset(r) == multiset(s)
  {
    if |s| == 0 then []
    else (assert s == [s[0]] + s[1..]; Insert(s[0], Sort(s[1..])))
  }

  /** Two sorted lists holding the same paths are the same list. */
  lemma {:induction false} SortedUnique(a: seq<string>, b: seq<string>)
    requires Sorted(a) && Sorted(b)
    requires multiset(a) == multiset(b)
    ensures a == b
    decreases |a|
  {
    if |a| == 0 {
      assert |multiset(b)| == 0;
    } else {
      assert |b| > 0 by { assert |multiset(b)| == |multiset(a)| > 0; }
      assert LexLe(b[0], a[0]) by {
        assert a[0] in multiset(b);
        var i :| 0 <= i < |b| && b[i] == a[0];
        if i == 0 { LexRefl(b[0]); } else { assert LexLe(b[0], b[i]); }
      }
      assert LexLe(a[0], b[0]) by {
        assert b[0] in multiset(a);
        var j :| 0 <= j < |a| && a[j] == b[0];
        if j == 0 { LexRefl(a[0]); } else { assert LexLe(a[0], a[j]); }
      }
      LexAntisymmetric(a[0], b[0]);
      var ta, tb := a[1..], b[1..];
      assert a == [a[0]] + ta && b == [b[0]] + tb;
      assert multiset(ta) == multiset(tb) by {
        assert multiset(a) == multiset{a[0]} + multiset(ta);
        assert multiset(b) == multiset{b[0]} + multiset(tb);
        forall e ensures multiset(ta)[e] == multiset(tb)[e] {
          assert multiset(a)[e] == multiset{a[0]}[e] + multiset(ta)[e];
          assert multiset(b)[e] == multiset{b[0]}[e] + multiset(tb)[e];
        }
      }
      assert Sorted(ta) && Sorted(tb) by {
        forall i, j | 0 <= i < j < |ta| ensures LexLe(ta[i], ta[j]) {
          assert ta[i] == a[i + 1] && ta[j] == a[j + 1];
        }
        forall i, j | 0 <= i < j < |tb| ensures LexLe(tb[i], tb[j]) {
          assert tb[i] == b[i + 1] && tb[j] == b[j + 1];
        }
      }
      SortedUnique(ta, tb);
    }
  }

  /** The bytes of the files `paths`, in that order. */
  function Concat(paths: seq<string>, fs: map<string, seq<byte>>): seq<byte>
    requires forall p :: p in paths ==> p in fs
  {
    if |paths| == 0 then []
    else Concat(paths[..|paths| - 1], fs) + fs[paths[|paths| - 1]]
  }

  const HexDigits: string := "0123456789abcdef"

  /** `hexdigest()`: two lower-case hex digits per byte, most significant first. */
  function HexDigest(d: seq<byte>): (r: string)
    ensures |r| == 2 * |d|
    ensures forall k :: 0 <= k < |r| ==> r[k] in HexDigits
  {
    if |d| == 0 then ""
    else
      var b := d[|d| - 1];
      HexDigest(d[..|d| - 1]) + [HexDigits[b / 16], HexDigits[b % 16]]
  }

  /** A hex digest has no surrounding whitespace, so `strip()` leaves it alone. */
  lemma DigestStripped(d: seq<byte>)
    ensures PyStr.Stripped(HexDigest(d))
  {
  }

  /** What `hash_docs(paths)` returns: the hex MD5 of the contents of `paths` in
      sorted order, or `None` when a path cannot be opened (`open` raises). */
  function Fingerprint(paths: seq<string>, fs: map<string, seq<byte>>,
                       md5: seq<byte> -> seq<byte>): Option<string>
  {
    var sorted := Sort(paths);
    if forall p :: p in sorted ==> p in fs then Some(HexDigest(md5(Concat(sorted, fs))))
    else None
  }

  /** `hash_docs`: the loop feeds each file, in sorted path order, into one MD5
      state; the state is modelled by the bytes it has absorbed, since
      `update(a); update(b)` hashes `a + b`. */
  method HashDocs(paths: seq<string>, fs: map<string, seq<byte>>,
                  md5: seq<byte> -> seq<byte>) returns (digest: Option<string>)
    ensures digest == Fingerprint(paths, fs, md5)
  {
    var sorted := Sort(paths);
    var fed: seq<byte> := [];
    for i := 0 to |sorted|
      invariant forall p :: p in sorted[..i] ==> p in fs
      invariant fed == Concat(sorted[..i], fs)
    {
      if sorted[i] !in fs {
        return None;
      }
      assert sorted[..i + 1][..i] == sorted[..i];
      fed := fed + fs[sorted[i]];
    }
    assert sorted[..|sorted|] == sorted;
    return Some(HexDigest(md5(fed)));
  }

  /** The fingerprint does not depend on the order `os.listdir` lists the files in. */
  lemma FingerprintPermutationInvariant(p1: seq<string>, p2: seq<string>,
                                        fs: map<string, seq<byte>>, md5: seq<byte> -> seq<byte>)
    requires multiset(p1) == multiset(p2)
    ensures Fingerprint(p1, fs, md5) == Fingerprint(p2, fs, md5)
  {
    SortedUnique(Sort(p1), Sort(p2));
  }

  lemma {:induction false} ConcatLength(paths: seq<string>, fs: map<string, seq<byte>>,
                                        fs': map<string, seq<byte>>)
    requires forall p :: p in paths ==> p in fs && p in fs' && |fs[p]| == |fs'[p]|
    ensures |Concat(paths, fs)| == |Concat(paths, fs')|
    decreases |paths|
  {
    if |paths| > 0 { ConcatLength(paths[..|paths| - 1], fs, fs'); }
  }

  lemma SplitEqual(a: seq<byte>, x: seq<byte>, b: seq<byte>, y: seq<byte>)
    requires |a| == |b| && a + x == b + y
    ensures a == b && x == y
  {
    assert a == (a + x)[..|a|] && b == (b + y)[..|b|];
    assert x == (a + x)[|a|..] && y == (b + y)[|b|..];
  }

  /** Overwriting one listed file with different bytes of the same length changes
      the bytes MD5 hashes, so only an MD5 collision could hide the edit. */
  lemma {:induction false} EditChangesHashInput(paths: seq<string>, fs: map<string, seq<byte>>,
                                                p: string, data: seq<byte>)
    requires forall q :: q in paths ==> q in fs
    requires p in paths
    requires |data| == |fs[p]| && data != fs[p]
    ensures Concat(paths, fs[p := data]) != Concat(paths, fs)
    decreases |paths|
  {
    var fs' := fs[p := data];
    var init := paths[..|paths| - 1];
    var last := paths[|paths| - 1];
    ConcatLength(init, fs, fs');
    if Concat(paths, fs') == Concat(paths, fs) {
      SplitEqual(Concat(init, fs'), fs'[last], Concat(init, fs), fs[last]);
      if last == p {
        assert false;
      } else {
        assert p in init by {
          assert paths == init + [last];
        }
        EditChangesHashInput(init, fs, p, data);
        assert false;
      }
    }
  }

  /** The files are hashed as one byte stream with no separators, so moving bytes
      across the boundary between two neighbouring files leaves the fingerprint
      unchanged. */
  lemma FileBoundariesInvisible(p: string, q: string, x: seq<byte>, y: seq<byte>,
                                z: seq<byte>, md5: seq<byte> -> seq<byte>)
    requires LexLe(p, q) && p != q
    ensures Fingerprint([p, q], map[p := x + y, q := z], md5) ==
            Fingerprint([p, q], map[p := x, q := y + z], md5)
  {
    assert Sort([p, q]) == [p, q] by {
      assert [p, q][1..] == [q];
      assert Sort([q]) == [q] by { assert [q][1..] == []; }
    }
    assert [p, q][..1] == [p] && [p][..0] == [];
    var fs1 := map[p := x + y, q := z];
    var fs2 := map[p := x, q := y + z];
    assert Concat([p, q], fs1) == Concat([p], fs1) + z == [] + (x + y) + z;
    assert Concat([p, q], fs2) == Concat([p], fs2) + (y + z) == [] + x + (y + z);
    assert [] + (x + y) + z == [] + x + (y + z);
  }
}
