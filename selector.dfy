/**
 * The attachment selector `remove_file_duplicates`: the platform attaches one photo at several
 * resolutions, and only the largest fifth of the variants is kept, largest first.
 */
module Selector {
  import opened Telegram

  /** How many of `n` variants are kept: `int(n / 5)`. */
  function KeptCount(n: nat): nat
  {
    n / 5
  }

  predicate Ascending(s: seq<PhotoSize>)
  {
    forall i, j :: 0 <= i < j < |s| ==> s[i].size <= s[j].size
  }

  predicate NonIncreasing(s: seq<PhotoSize>)
  {
    forall i, j :: 0 <= i < j < |s| ==> s[i].size >= s[j].size
  }

  /** The variants of `s` whose size is `k`, in the order they have in `s`. */
  function OfSize(s: seq<PhotoSize>, k: nat): seq<PhotoSize>
  {
    if s == [] then [] else (if s[0].size == k then [s[0]] else []) + OfSize(s[1..], k)
  }

  /** Puts `x` in front of the first element of `t` that is at least as large. */
  function Insert(x: PhotoSize, t: seq<PhotoSize>): (r: seq<PhotoSize>)
    ensures |r| == |t| + 1
    ensures multiset(r) == multiset(t) + multiset{x}
  {
    if t == [] then [x]
    else if x.size <= t[0].size then [x] + t
    else
      assert t == [t[0]] + t[1..];
      [t[0]] + Insert(x, t[1..])
  }

  /** `sorted(files, key=lambda file: file.file_size)`: Python's stable sort by ascending size. */
  function SortBySize(s: seq<PhotoSize>): (r: seq<PhotoSize>)
    ensures |r| == |s|
    ensures multiset(r) == multiset(s)
  {
    if s == [] then []
    else
      assert s == [s[0]] + s[1..];
      Insert(s[0], SortBySize(s[1..]))
  }

  /** Inserting into an ascending sequence keeps it ascending. */
  lemma {:induction false} InsertAscending(x: PhotoSize, t: seq<PhotoSize>)
    requires Ascending(t)
    ensures Ascending(Insert(x, t))
  {
    if t != [] && x.size > t[0].size {
      var tail := Insert(x, t[1..]);
      InsertAscending(x, t[1..]);
      assert tail[0] == x || tail[0] == t[1] by {
        if |t| > 1 && x.size > t[1].size {
          assert tail == [t[1]] + Insert(x, t[2..]);
        }
      }
      var r := [t[0]] + tail;
      forall i, j | 0 <= i < j < |r|
        ensures r[i].size <= r[j].size
      {
        if i > 0 {
          assert r[i] == tail[i - 1] && r[j] == tail[j - 1];
        } else {
          assert r[1] == tail[0];
          assert r[j] == tail[j - 1];
          assert tail[0].size <= tail[j - 1].size;
        }
      }
    }
  }

  /** Python's `sorted` returns its input in ascending order of the key. */
  lemma {:induction false} SortAscending(s: seq<PhotoSize>)
    ensures Ascending(SortBySize(s))
  {
    if s != [] {
      SortAscending(s[1..]);
      InsertAscending(s[0], SortBySize(s[1..]));
    }
  }

  function Reversed(s: seq<PhotoSize>): (r: seq<PhotoSize>)
    ensures |r| == |s|
  {
    if s == [] then [] else Reversed(s[1..]) + [s[0]]
  }

  /** What `remove_file_duplicates` returns: the sorted variants, reversed, cut after `n / 5`. */
  function Selection(files: seq<PhotoSize>): seq<PhotoSize>
  {
    Reversed(SortBySize(files))[..KeptCount(|files|)]
  }

  // ----- Reversal -----

  lemma {:induction false} ReversedAt(s: seq<PhotoSize>, k: nat)
    requires k < |s|
    ensures Reversed(s)[k] == s[|s| - 1 - k]
  {
    if k < |s| - 1 {
      ReversedAt(s[1..], k);
    }
  }

  lemma {:induction false} ReversedMultiset(s: seq<PhotoSize>)
    ensures multiset(Reversed(s)) == multiset(s)
  {
    if s != [] {
      ReversedMultiset(s[1..]);
      assert s == [s[0]] + s[1..];
    }
  }

  /** Reversing an ascending sequence gives a non-increasing one. */
  lemma ReversedAscending(s: seq<PhotoSize>)
    requires Ascending(s)
    ensures NonIncreasing(Reversed(s))
  {
    var r := Reversed(s);
    forall i, j | 0 <= i < j < |r|
      ensures r[i].size >= r[j].size
    {
      ReversedAt(s, i);
      ReversedAt(s, j);
    }
  }

  // ----- Filtering by size (stability) -----

  lemma {:induction false} OfSizeAppend(a: seq<PhotoSize>, b: seq<PhotoSize>, k: nat)
    ensures OfSize(a + b, k) == OfSize(a, k) + OfSize(b, k)
  {
    if a == [] {
      assert a + b == b;
    } else {
      assert (a + b)[1..] == a[1..] + b;
      OfSizeAppend(a[1..], b, k);
    }
  }

  /** Inserting `x` puts it ahead of every variant of the same size. */
  lemma {:induction false} OfSizeInsert(x: PhotoSize, t: seq<PhotoSize>, k: nat)
    ensures OfSize(Insert(x, t), k) == (if x.size == k then [x] else []) + OfSize(t, k)
  {
    if t == [] {
    } else if x.size <= t[0].size {
      assert ([x] + t)[1..] == t;
    } else {
      assert ([t[0]] + Insert(x, t[1..]))[1..] == Insert(x, t[1..]);
      OfSizeInsert(x, t[1..], k);
    }
  }

  /** The sort is stable: variants of one size keep their input order. */
  lemma {:induction false} OfSizeSort(s: seq<PhotoSize>, k: nat)
    ensures OfSize(SortBySize(s), k) == OfSize(s, k)
  {
    if s != [] {
      OfSizeInsert(s[0], SortBySize(s[1..]), k);
      OfSizeSort(s[1..], k);
    }
  }

  lemma {:induction false} OfSizeReversed(s: seq<PhotoSize>, k: nat)
    ensures OfSize(Reversed(s), k) == Reversed(OfSize(s, k))
  {
    if s != [] {
      OfSizeReversed(s[1..], k);
      OfSizeAppend(Reversed(s[1..]), [s[0]], k);
      if s[0].size == k {
        assert ([s[0]] + OfSize(s[1..], k))[1..] == OfSize(s[1..], k);
      } else {
        assert [] + OfSize(s[1..], k) == OfSize(s[1..], k);
      }
    }
  }

  // ----- Properties of the selection -----

  /** The reversed sorted variants are the kept ones followed by the dropped ones. */
  lemma SelectionSplit(files: seq<PhotoSize>) returns (rest: seq<PhotoSize>)
    ensures Reversed(SortBySize(files)) == Selection(files) + rest
    ensures multiset(files) == multiset(Selection(files)) + multiset(rest)
    ensures NonIncreasing(Selection(files) + rest)
  {
    var all := Reversed(SortBySize(files));
    rest := all[KeptCount(|files|)..];
    assert all == Selection(files) + rest;
    ReversedMultiset(SortBySize(files));
    SortAscending(files);
    ReversedAscending(SortBySize(files));
  }

  /** Exactly `n / 5` variants are kept; none at all when fewer than five are attached. */
  lemma SelectionLength(files: seq<PhotoSize>)
    ensures |Selection(files)| == |files| / 5
    ensures |files| < 5 ==> Selection(files) == []
  {
  }

  /** The kept variants are drawn from the input, each no more often than it occurs there. */
  lemma SelectionSubset(files: seq<PhotoSize>)
    ensures multiset(Selection(files)) <= multiset(files)
    ensures forall p :: p in Selection(files) ==> p in files
  {
    var sel := Selection(files);
    var rest := SelectionSplit(files);
    forall p | p in sel
      ensures p in files
    {
      assert p in multiset(sel);
    }
  }

  /** The kept variants are largest first. */
  lemma SelectionOrder(files: seq<PhotoSize>)
    ensures NonIncreasing(Selection(files))
  {
    var rest := SelectionSplit(files);
    var sel := Selection(files);
    forall i, j | 0 <= i < j < |sel|
      ensures sel[i].size >= sel[j].size
    {
      assert sel[i] == (sel + rest)[i] && sel[j] == (sel + rest)[j];
    }
  }

  /**
   * Among variants of equal size, the kept ones come in reverse input order: they are the
   * first ones of that size in the reversed input.
   */
  lemma SelectionTies(files: seq<PhotoSize>, k: nat)
    ensures OfSize(Selection(files), k) <= Reversed(OfSize(files, k))
  {
    var sel := Selection(files);
    var rest := SelectionSplit(files);
    OfSizeAppend(sel, rest, k);
    OfSizeReversed(SortBySize(files), k);
    OfSizeSort(files, k);
  }

  /** No variant left out is larger than any variant kept. */
  lemma SelectionIsTop(files: seq<PhotoSize>)
    ensures forall p, q ::
              p in Selection(files) && q in multiset(files) - multiset(Selection(files)) ==> p.size >= q.size
  {
    var sel := Selection(files);
    var rest := SelectionSplit(files);
    assert multiset(files) - multiset(sel) == multiset(rest);
    forall p: PhotoSize, q: PhotoSize | p in sel && q in multiset(rest)
      ensures p.size >= q.size
    {
      assert q in rest;
      KeptBeforeDropped(sel, rest, p, q);
    }
  }

  /** In a non-increasing sequence, everything in the front part is at least everything behind it. */
  lemma KeptBeforeDropped(sel: seq<PhotoSize>, rest: seq<PhotoSize>, p: PhotoSize, q: PhotoSize)
    requires NonIncreasing(sel + rest)
    requires p in sel && q in rest
    ensures p.size >= q.size
  {
    var i :| 0 <= i < |sel| && sel[i] == p;
    var j :| 0 <= j < |rest| && rest[j] == q;
    assert (sel + rest)[i] == p && (sel + rest)[|sel| + j] == q;
  }

  // ----- Worked cases -----

  /**
   * With five or six variants exactly one is kept; it is one of them, and it is at least as large
   * as every other one.
   */
  lemma KeepsOne(s: seq<PhotoSize>) returns (p: PhotoSize)
    requires |s| == 5 || |s| == 6
    ensures Selection(s) == [p] && p in s
    ensures forall q :: q in s && q != p ==> p.size >= q.size
  {
    SelectionLength(s);
    assert |Selection(s)| == 1 by {
      if |s| == 5 { assert 5 / 5 == 1; } else { assert 6 / 5 == 1; }
    }
    p := Selection(s)[0];
    assert Selection(s) == [p];
    SelectionSubset(s);
    SelectionIsTop(s);
    forall q | q in s && q != p
      ensures p.size >= q.size
    {
      assert q in multiset(s) - multiset([p]);
    }
  }

  /** Six variants of strictly increasing sizes (say 10 to 60): only the last, largest one is kept. */
  lemma SixVariantsKeepLargest(s: seq<PhotoSize>)
    requires |s| == 6
    requires forall i, j :: 0 <= i < j < 6 ==> s[i].size < s[j].size
    ensures Selection(s) == [s[5]]
  {
    var p := KeepsOne(s);
    var i :| 0 <= i < 6 && s[i] == p;
    assert s[5] in s;
  }

  /**
   * Five variants where the second and fourth tie for the largest size: the later one of the
   * two, the fourth, is kept.
   */
  lemma TieKeepsLaterVariant(s: seq<PhotoSize>)
    requires |s| == 5
    requires s[0].size < s[2].size < s[4].size < s[1].size == s[3].size
    ensures Selection(s) == [s[3]]
  {
    var p := KeepsOne(s);
    var k := s[3].size;
    assert p.size == k by {
      assert s[3] in s;
      var i :| 0 <= i < 5 && s[i] == p;
    }
    SelectionTies(s, k);
    OfSizeTie(s);
    assert OfSize([p], k) == [p] by {
      assert [p][1..] == [];
    }
  }

  lemma OfSizeTie(s: seq<PhotoSize>)
    requires |s| == 5
    requires s[0].size < s[2].size < s[4].size < s[1].size == s[3].size
    ensures Reversed(OfSize(s, s[3].size)) == [s[3], s[1]]
  {
    var k := s[3].size;
    assert OfSize(s[4..], k) == [] by { assert s[4..][1..] == []; }
    assert OfSize(s[3..], k) == [s[3]] by { assert s[3..][1..] == s[4..]; }
    assert OfSize(s[2..], k) == [s[3]] by { assert s[2..][1..] == s[3..]; }
    assert OfSize(s[1..], k) == [s[1], s[3]] by { assert s[1..][1..] == s[2..]; }
    assert OfSize(s, k) == [s[1], s[3]] by { assert s[1..] == s[1..]; }
    var t := [s[1], s[3]];
    assert t[1..] == [s[3]] && [s[3]][1..] == [];
  }

  // ----- The selector as the source runs it -----

  /** `correct.reverse()`: reverses the array in place. */
  method ReverseInPlace(a: array<PhotoSize>)
    modifies a
    ensures a[..] == Reversed(old(a[..]))
  {
    var lo, hi := 0, a.Length - 1;
    while lo < hi
      invariant 0 <= lo <= a.Length && hi == a.Length - 1 - lo
      invariant forall k :: 0 <= k < lo ==> a[k] == old(a[a.Length - 1 - k]) && a[a.Length - 1 - k] == old(a[k])
      invariant forall k :: lo <= k <= hi ==> a[k] == old(a[k])
    {
      a[lo], a[hi] := a[hi], a[lo];
      lo, hi := lo + 1, hi - 1;
    }
    forall k | 0 <= k < a.Length
      ensures a[..][k] == Reversed(old(a[..]))[k]
    {
      ReversedAt(old(a[..]), k);
    }
  }

  /**
   * `remove_file_duplicates`: sorts the variants by size, copies the result into a fresh list,
   * reverses that list in place and keeps its first `n / 5` entries.
   */
  method RemoveFileDuplicates(files: seq<PhotoSize>) returns (r: seq<PhotoSize>)
    ensures r == Selection(files)
    ensures |r| == |files| / 5
    ensures NonIncreasing(r)
    ensures multiset(r) <= multiset(files)
    ensures forall p, q :: p in r && q in multiset(files) - multiset(r) ==> p.size >= q.size
  {
    SelectionLength(files);
    SelectionOrder(files);
    SelectionSubset(files);
    SelectionIsTop(files);
    if |files| == 0 {
      return [];
    }
    var ordered := SortBySize(files);
    var offset := |ordered| / 5;
    var correct := new PhotoSize[|ordered|](i requires 0 <= i < |ordered| => ordered[i]);
    assert correct[..] == ordered;
    ReverseInPlace(correct);
    r := correct[..offset];
  }
}
