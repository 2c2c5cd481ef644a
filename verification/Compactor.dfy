/** WAL compaction: src/internal/storage/wal/compactor.go. Files are listed by name, so the order of names has
    to be the order of ids for the oldest segments to go first. */
module Compactor {
  import opened Domain
  import opened Entries
  import opened Bytes
  import opened Codec
  import R = LogReader
  import Sorting
  import WalFiles

  // ---------------------------------------------------------------- file names

  function Digit(n: nat): char
    requires n < 10
  {
    '0' + n as char
  }

  /** The last w decimal digits of n. */
  function FixedDigits(n: nat, w: nat): (s: string)
    ensures |s| == w
  {
    if w == 0 then "" else FixedDigits(n / 10, w - 1) + [Digit(n % 10)]
  }

  function Decimal(n: nat): string {
    if n < 10 then [Digit(n)] else Decimal(n / 10) + [Digit(n % 10)]
  }

  const TEN_TO_8 := 100_000_000

  /** formatSegmentFilename: "wal-%08d.log". */
  function FileName(id: nat): string {
    "wal-" + (if id < TEN_TO_8 then FixedDigits(id, 8) else Decimal(id)) + ".log"
  }

  /** sort.Strings: bytewise order. */
  predicate Before(a: string, b: string) {
    if b == "" then false
    else if a == "" then true
    else a[0] < b[0] || (a[0] == b[0] && Before(a[1..], b[1..]))
  }

  lemma {:induction false} BeforeSnoc(a: string, b: string, c: char, d: char)
    requires |a| == |b|
    ensures Before(a + [c], b + [d]) <==> Before(a, b) || (a == b && c < d)
    decreases |a|
  {
    var x, y := a + [c], b + [d];
    if a == "" {
      assert x == [c] && y == [d] && x[1..] == "" && y[1..] == "";
    } else {
      assert x[1..] == a[1..] + [c] && y[1..] == b[1..] + [d];
      BeforeSnoc(a[1..], b[1..], c, d);
      assert a == b <==> a[0] == b[0] && a[1..] == b[1..] by {
        assert a == [a[0]] + a[1..] && b == [b[0]] + b[1..];
      }
    }
  }

  lemma {:induction false} BeforeSuffix(a: string, b: string, s: string)
    requires |a| == |b|
    ensures Before(a + s, b + s) <==> Before(a, b)
    decreases |s|
  {
    if s == "" {
      assert a + s == a && b + s == b;
    } else {
      assert a + s == (a + [s[0]]) + s[1..] && b + s == (b + [s[0]]) + s[1..];
      BeforeSuffix(a + [s[0]], b + [s[0]], s[1..]);
      BeforeSnoc(a, b, s[0], s[0]);
    }
  }

  lemma {:induction false} BeforePrefix(p: string, a: string, b: string)
    ensures Before(p + a, p + b) <==> Before(a, b)
    decreases |p|
  {
    if p == "" {
      assert p + a == a && p + b == b;
    } else {
      assert (p + a)[1..] == p[1..] + a && (p + b)[1..] == p[1..] + b;
      BeforePrefix(p[1..], a, b);
    }
  }

  /** On numbers of w digits, the order of the digit strings is the order of the numbers. */
  lemma {:induction false} DigitsInOrder(a: nat, b: nat, w: nat)
    requires a < TenTo(w) && b < TenTo(w)
    ensures Before(FixedDigits(a, w), FixedDigits(b, w)) <==> a < b
    ensures FixedDigits(a, w) == FixedDigits(b, w) <==> a == b
  {
    if w > 0 {
      DigitsInOrder(a / 10, b / 10, w - 1);
      BeforeSnoc(FixedDigits(a / 10, w - 1), FixedDigits(b / 10, w - 1), Digit(a % 10), Digit(b % 10));
      var x, y := FixedDigits(a, w), FixedDigits(b, w);
      assert x[..w - 1] == FixedDigits(a / 10, w - 1) && y[..w - 1] == FixedDigits(b / 10, w - 1);
      assert x[w - 1] == Digit(a % 10) && y[w - 1] == Digit(b % 10);
    }
  }

  function TenTo(w: nat): (r: nat)
    ensures r >= 1
  {
    if w == 0 then 1 else 10 * TenTo(w - 1)
  }

  /** Below 10^8 the files sort by id. */
  lemma NamesInOrder(a: nat, b: nat)
    requires a < TEN_TO_8 && b < TEN_TO_8
    ensures Before(FileName(a), FileName(b)) <==> a < b
  {
    assert TenTo(8) == TEN_TO_8 by { assert TenTo(4) == 10_000; }
    DigitsInOrder(a, b, 8);
    var x, y := FixedDigits(a, 8), FixedDigits(b, 8);
    BeforeSuffix(x, y, ".log");
    BeforePrefix("wal-", x + ".log", y + ".log");
    assert FileName(a) == "wal-" + (x + ".log") && FileName(b) == "wal-" + (y + ".log");
  }

  /** The listing that sort.Strings leaves: names in order. */
  predicate NameSorted(ids: seq<nat>) {
    forall i, j | 0 <= i < j < |ids| :: Before(FileName(ids[i]), FileName(ids[j]))
  }

  lemma NameSortedIsAscending(ids: seq<nat>)
    requires NameSorted(ids) && forall i | 0 <= i < |ids| :: ids[i] < TEN_TO_8
    ensures Sorting.Ascending(ids)
  {
    forall i, j | 0 <= i < j < |ids| ensures ids[i] < ids[j] { NamesInOrder(ids[i], ids[j]); }
  }

  lemma {:induction false} PowerStartsWithOne(w: nat)
    ensures Decimal(TenTo(w)) != "" && Decimal(TenTo(w))[0] == '1'
  {
    if w > 0 {
      PowerStartsWithOne(w - 1);
      assert TenTo(w) / 10 == TenTo(w - 1) && TenTo(w) >= 10;
    }
  }

  lemma {:induction false} NinesStartWithNine(w: nat)
    requires w >= 1
    ensures FixedDigits(TenTo(w) - 1, w)[0] == '9'
  {
    if w > 1 {
      NinesStartWithNine(w - 1);
      assert (TenTo(w) - 1) / 10 == TenTo(w - 1) - 1;
    } else {
      assert TenTo(1) == 10 && FixedDigits(0, 0) == "";
    }
  }

  /** From 10^8 on they no longer do: a nine-digit id sorts before eight nines, so the newest segment would be
      taken for the oldest. */
  lemma NamesOutOfOrder()
    ensures Before(FileName(TEN_TO_8), FileName(TEN_TO_8 - 1))
  {
    assert TenTo(8) == TEN_TO_8 by { assert TenTo(4) == 10_000; }
    PowerStartsWithOne(8);
    NinesStartWithNine(8);
    var x, y := Decimal(TEN_TO_8) + ".log", FixedDigits(TEN_TO_8 - 1, 8) + ".log";
    assert Before(x, y);
    BeforePrefix("wal-", x, y);
    assert FileName(TEN_TO_8) == "wal-" + x && FileName(TEN_TO_8 - 1) == "wal-" + y;
  }

  lemma {:induction false} BeforeIsAsymmetric(a: string, b: string)
    requires Before(a, b)
    ensures !Before(b, a)
    decreases |a|
  {
    if a != "" && a[0] == b[0] {
      BeforeIsAsymmetric(a[1..], b[1..]);
    }
  }

  /** Names sort by id up to n. */
  ghost predicate SortById(n: nat) {
    forall a, b | 0 <= a < b <= n :: Before(FileName(a), FileName(b))
  }

  /** They do exactly while the ids have at most eight digits. */
  lemma NamesInOrderIff(n: nat)
    ensures SortById(n) <==> n < TEN_TO_8
  {
    if n < TEN_TO_8 {
      forall a, b | 0 <= a < b <= n
        ensures Before(FileName(a), FileName(b))
      {
        NamesInOrder(a, b);
      }
    } else {
      NamesOutOfOrder();
      BeforeIsAsymmetric(FileName(TEN_TO_8), FileName(TEN_TO_8 - 1));
    }
  }

  // ---------------------------------------------------------------- compaction

  /** The listed segments below the snapshot's segment, in listing order. */
  function Older(ids: seq<nat>, segment: nat): (r: seq<nat>)
    ensures |r| <= |ids|
  {
    if ids == [] then [] else
    Older(ids[..|ids| - 1], segment) + (if ids[|ids| - 1] < segment then [ids[|ids| - 1]] else [])
  }

  /** What Compact removes: the older segments, minus enough of the last ones to retain `retain` files. */
  function Removed(ids: seq<nat>, segment: nat, retain: nat): seq<nat> {
    var older := Older(ids, segment);
    var remaining := |ids| - |older|;
    if remaining >= retain then older
    else if retain - remaining >= |older| then []
    else older[..|older| - (retain - remaining)]
  }

  predicate Lists(ids: seq<nat>, files: map<nat, seq<byte>>) {
    && (forall i | 0 <= i < |ids| :: ids[i] in files)
    && (forall i, j | 0 <= i < j < |ids| :: ids[i] != ids[j])
    && (forall id <- files :: id in ids)
  }

  function SetOf(ids: seq<nat>): set<nat> {
    set id | id in ids
  }

  /** The files to delete, chosen from the listing of the directory. */
  method Select(ids: seq<nat>, segment: nat, retain: nat) returns (toDelete: seq<nat>)
    ensures toDelete == Removed(ids, segment, retain)
  {
    toDelete := [];
    for i := 0 to |ids|
      invariant toDelete == Older(ids[..i], segment)
    {
      assert ids[..i + 1][..i] == ids[..i];
      if ids[i] < segment { toDelete := toDelete + [ids[i]]; }
    }
    assert ids[..|ids|] == ids;
    if |ids| - |toDelete| < retain {
      var keepCount := retain - (|ids| - |toDelete|);
      if keepCount > |toDelete| { keepCount := |toDelete|; }
      toDelete := toDelete[..|toDelete| - keepCount];
    }
  }

  method Compact(dir: WalFiles.Directory, ids: seq<nat>, snapshotOffset: nat, retain: nat)
    requires Lists(ids, dir.files)
    modifies dir
    ensures dir.files == old(dir.files) - SetOf(Removed(ids, snapshotOffset / TWO_TO_32, retain))
  {
    hide Removed, Lists;
    var toDelete := Select(ids, snapshotOffset / TWO_TO_32, retain);
    for i := 0 to |toDelete|
      invariant dir.files == old(dir.files) - SetOf(toDelete[..i])
    {
      assert toDelete[..i + 1] == toDelete[..i] + [toDelete[i]];
      assert SetOf(toDelete[..i + 1]) == SetOf(toDelete[..i]) + {toDelete[i]};
      dir.files := dir.files - {toDelete[i]};
    }
    assert toDelete[..|toDelete|] == toDelete;
  }

  /** In an ascending listing the older segments are the ones a seek skips. */
  lemma {:induction false} OlderIsPrefix(ids: seq<nat>, segment: nat, n: nat)
    requires Sorting.Ascending(ids) && n <= |ids|
    ensures var k := R.FirstFrom(ids, segment); Older(ids[..n], segment) == ids[..if n <= k then n else k]
  {
    hide R.FirstFrom;
    var k := R.FirstFrom(ids, segment);
    if n > 0 {
      OlderIsPrefix(ids, segment, n - 1);
      assert ids[..n][..n - 1] == ids[..n - 1];
      if n <= k { assert ids[..n] == ids[..n - 1] + [ids[n - 1]]; }
      else { assert ids[k] <= ids[n - 1]; }
    }
  }

  function Min(a: nat, b: nat): nat {
    if a < b then a else b
  }

  /** Compaction removes an oldest-first run of segments, all strictly below the snapshot's segment, and as many
      as the retain count allows: at least min(n, retain) files stay. */
  lemma CompactRemovesOldest(ids: seq<nat>, segment: nat, retain: nat)
    requires Sorting.Ascending(ids)
    ensures var removed := Removed(ids, segment, retain);
            && removed <= ids
            && |removed| <= R.FirstFrom(ids, segment)
            && (forall i | 0 <= i < |removed| :: removed[i] < segment)
            && |ids| - |removed| >= (if |ids| < retain then |ids| else retain)
            && |removed| == Min(R.FirstFrom(ids, segment), if |ids| < retain then 0 else |ids| - retain)
  {
    hide Older, R.FirstFrom, Sorting.Ascending;
    OlderIsPrefix(ids, segment, |ids|);
    assert ids[..|ids|] == ids;
    var k := R.FirstFrom(ids, segment);
    var n := |Removed(ids, segment, retain)|;
    assert Older(ids, segment) == ids[..k];
    assert n <= k && Removed(ids, segment, retain) == ids[..n];
  }

  /** Compaction is invisible to recovery: a reader that seeks to the snapshot's offset is in the same state
      before and after, and so reads the same stream. */
  lemma CompactionIsInvisible(lib: Library, ids: seq<nat>, contents: seq<seq<byte>>, offset: nat, retain: nat)
    requires Sorting.Ascending(ids) && |contents| == |ids|
    ensures var k := |Removed(ids, offset / TWO_TO_32, retain)|;
            && k <= |ids|
            && R.SeekTo(ids[k..], contents[k..], offset) == R.SeekTo(ids, contents, offset)
            && R.Stream(lib, R.SeekTo(ids[k..], contents[k..], offset)) ==
                R.Stream(lib, R.SeekTo(ids, contents, offset))
  {
    hide R.FirstFrom, R.Stream, Older;
    var segment := offset / TWO_TO_32;
    CompactRemovesOldest(ids, segment, retain);
    var k, first := |Removed(ids, segment, retain)|, R.FirstFrom(ids, segment);
    WalFiles.FirstFromIs(ids[k..], segment, first - k);
    assert contents[k..][first - k..] == contents[first..];
  }

  /** Load can fall back to an older snapshot than the one that compaction went by. Seeking to an older offset is the
      same before and after if and only if compaction removed no more than that seek would have skipped. */
  lemma OlderSnapshotIff(ids: seq<nat>, contents: seq<seq<byte>>, older: nat, offset: nat, retain: nat)
    requires Sorting.Ascending(ids) && |contents| == |ids|
    ensures var k := |Removed(ids, offset / TWO_TO_32, retain)|;
            && k <= |ids|
            && (R.SeekTo(ids[k..], contents[k..], older) == R.SeekTo(ids, contents, older) <==>
                k <= R.FirstFrom(ids, older / TWO_TO_32))
  {
    hide R.FirstFrom, Older, Removed;
    CompactRemovesOldest(ids, offset / TWO_TO_32, retain);
    var k, first := |Removed(ids, offset / TWO_TO_32, retain)|, R.FirstFrom(ids, older / TWO_TO_32);
    if k <= first {
      WalFiles.FirstFromIs(ids[k..], older / TWO_TO_32, first - k);
      assert contents[k..][first - k..] == contents[first..];
    } else {
      var rest := contents[k..][R.FirstFrom(ids[k..], older / TWO_TO_32)..];
      assert |rest| < |contents[first..]|;
    }
  }

  /** The listing by name that Compact works on is the reader's listing by id, below 10^8. */
  lemma ListingIsTheScan(files: map<nat, seq<byte>>, listing: seq<nat>, ids: seq<nat>)
    requires Lists(listing, files) && NameSorted(listing) && Sorting.Sorts(ids, files.Keys)
    requires forall id <- files :: id < TEN_TO_8
    ensures listing == ids
  {
    NameSortedIsAscending(listing);
    Sorting.SortsUniquely(listing, ids, files.Keys);
  }

  /** A fresh scan of the directory that Compact leaves lists what it kept. */
  lemma RescanIsTheRest(files: map<nat, seq<byte>>, ids: seq<nat>, rest: seq<nat>, segment: nat, retain: nat)
    requires Sorting.Sorts(ids, files.Keys)
    requires Sorting.Sorts(rest, (files - SetOf(Removed(ids, segment, retain))).Keys)
    ensures |Removed(ids, segment, retain)| <= |ids| && rest == ids[|Removed(ids, segment, retain)|..]
  {
    hide Removed, R.FirstFrom, Sorting.Sorts;
    SortedIsAscending(ids, files.Keys);
    CompactRemovesOldest(ids, segment, retain);
    var removed := Removed(ids, segment, retain);
    assert ids[..|removed|] == removed;
    DropOldest(ids, files.Keys, |removed|);
    assert (files - SetOf(removed)).Keys == files.Keys - SetOf(removed);
    Sorting.SortsUniquely(rest, ids[|removed|..], files.Keys - SetOf(removed));
  }

  lemma SortedIsAscending(ids: seq<nat>, members: set<nat>)
    requires Sorting.Sorts(ids, members)
    ensures Sorting.Ascending(ids)
  {}

  lemma {:induction false} DropOldest(ids: seq<nat>, members: set<nat>, k: nat)
    requires Sorting.Sorts(ids, members) && k <= |ids|
    ensures Sorting.Sorts(ids[k..], members - SetOf(ids[..k]))
  {
    hide Sorting.Sorts;
    if k == 0 {
      assert ids[0..] == ids && members - SetOf(ids[..0]) == members;
    } else {
      DropOldest(ids, members, k - 1);
      DropFirst(ids[k - 1..], members - SetOf(ids[..k - 1]));
      assert ids[k - 1..][1..] == ids[k..];
      assert ids[..k] == ids[..k - 1] + [ids[k - 1]];
      assert members - SetOf(ids[..k]) == members - SetOf(ids[..k - 1]) - {ids[k - 1]};
    }
  }

  lemma DropFirst(s: seq<nat>, members: set<nat>)
    requires Sorting.Sorts(s, members) && s != []
    ensures Sorting.Sorts(s[1..], members - {s[0]})
  {
    assert s == [s[0]] + s[1..];
  }

  /** Compaction of a directory is invisible to recovery: a reader that scans it afresh and seeks to the snapshot's
      offset reads the same stream as before. */
  lemma CompactedDirectoryReadsTheSame(lib: Library, files: map<nat, seq<byte>>, ids: seq<nat>, rest: seq<nat>,
                                       offset: nat, retain: nat)
    requires Sorting.Sorts(ids, files.Keys)
    requires Sorting.Sorts(rest, (files - SetOf(Removed(ids, offset / TWO_TO_32, retain))).Keys)
    ensures var left := files - SetOf(Removed(ids, offset / TWO_TO_32, retain));
            R.Stream(lib, R.SeekTo(rest, WalFiles.Listed(left, rest), offset)) ==
            R.Stream(lib, R.SeekTo(ids, WalFiles.Listed(files, ids), offset))
  {
    hide Removed, R.Stream, R.SeekTo;
    RescanIsTheRest(files, ids, rest, offset / TWO_TO_32, retain);
    var k := |Removed(ids, offset / TWO_TO_32, retain)|;
    var left := files - SetOf(Removed(ids, offset / TWO_TO_32, retain));
    assert WalFiles.Listed(left, rest) == WalFiles.Listed(files, ids)[k..];
    CompactionIsInvisible(lib, ids, WalFiles.Listed(files, ids), offset, retain);
  }
}
