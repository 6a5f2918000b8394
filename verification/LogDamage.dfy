/** What checksums promise (db/log_reader.cc): no file, whatever its bytes, yields a record that is not there with its checksums;
    and damage to a fragment costs its record and what else stood in the rest of its block, and is reported. */
module LogDamage {
  import opened DbFormat
  import opened Coding
  import opened LogFormat
  import opened LogRoundTrip

  // ----- Any bytes -----

  /** `record` stands in the file from the header at `q` on, cut the way a writer cuts it, every fragment with its checksum and
      the last one ending at `next`. */
  ghost predicate Stands(crc: Checksum, file: Bytes, q: nat, record: Bytes, begin: bool, next: nat)
    decreases |file| - q
  {
    FragmentInside(file, q) &&
    var end := q + HEADER_SIZE + Announced(file, q);
    var fragment := file[q + HEADER_SIZE..end];
    || (Verified(crc, file, q, Code(TypeOf(begin, true)), record) && next == end)
    || (Verified(crc, file, q, Code(TypeOf(begin, false)), fragment) && fragment <= record
        && Stands(crc, file, HeaderPlace(end), record[|fragment|..], false, next))
  }

  /** A record read from `p` is the rest of one begun before, or stands somewhere behind `p`. */
  ghost predicate Genuine(crc: Checksum, file: Bytes, p: nat, inFragment: bool, scratch: Bytes, record: Bytes, next: nat) {
    || (inFragment && scratch <= record && Stands(crc, file, HeaderPlace(p), record[|scratch|..], false, next))
    || exists q :: p <= q && Stands(crc, file, q, record, true, next)
  }

  lemma GotIsVerified(crc: Checksum, file: Bytes, p: nat)
    requires p <= |file|
    ensures p <= HeaderPlace(p)
    ensures match ReadPhysical(crc, file, p)
      case Got(code, fragment, next) =>
        Verified(crc, file, HeaderPlace(p), code, fragment) && next == HeaderPlace(p) + HEADER_SIZE + |fragment|
      case _ => true
  {
    hide ReadPhysical, HeaderPlace;
    PhysicalOnBytes(crc, file, p);
  }

  lemma {:induction false} RecordsAreGenuine(crc: Checksum, file: Bytes, p: nat, inFragment: bool, scratch: Bytes, reports: nat)
    requires p <= |file| && (!inFragment ==> scratch == [])
    ensures var r := ReadLogical(crc, file, p, inFragment, scratch, reports);
      r.Record? ==> Genuine(crc, file, p, inFragment, scratch, r.record, r.next)
    decreases |file| - p
  {
    hide ReadPhysical, Stands, Verified, HeaderPlace, FragmentInside;
    GotIsVerified(crc, file, p);
    var q := HeaderPlace(p);
    var read := ReadPhysical(crc, file, p);
    match TurnOf(read, inFragment, scratch, reports)
    case Done(result) =>
      if result.Record? {
        if read.code == Code(Full) {
          LastStands(crc, file, q, read.fragment, true);
        } else {
          LastStands(crc, file, q, read.fragment, false);
          assert (scratch + read.fragment)[|scratch|..] == read.fragment;
        }
      }
    case Again(next, f, s, n) =>
      RecordsAreGenuine(crc, file, next, f, s, n);
      var r := ReadLogical(crc, file, next, f, s, n);
      if r.Record? && f && s <= r.record && Stands(crc, file, HeaderPlace(next), r.record[|s|..], false, r.next) {
        if read.code == Code(First) {
          MoreStands(crc, file, q, read.fragment, r.record, true, r.next);
        } else {
          assert r.record[|scratch|..][..|read.fragment|] == read.fragment;
          assert r.record[|scratch|..][|read.fragment|..] == r.record[|s|..];
          MoreStands(crc, file, q, read.fragment, r.record[|scratch|..], false, r.next);
        }
      }
  }

  lemma LastStands(crc: Checksum, file: Bytes, q: nat, fragment: Bytes, begin: bool)
    requires Verified(crc, file, q, Code(TypeOf(begin, true)), fragment)
    ensures Stands(crc, file, q, fragment, begin, q + HEADER_SIZE + |fragment|)
  {
  }

  lemma MoreStands(crc: Checksum, file: Bytes, q: nat, fragment: Bytes, record: Bytes, begin: bool, next: nat)
    requires Verified(crc, file, q, Code(TypeOf(begin, false)), fragment) && fragment <= record
    requires Stands(crc, file, HeaderPlace(q + HEADER_SIZE + |fragment|), record[|fragment|..], false, next)
    ensures Stands(crc, file, q, record, begin, next)
  {
  }

  ghost predicate IsGenuine(crc: Checksum, file: Bytes, record: Bytes) {
    exists q, next :: Stands(crc, file, q, record, true, next)
  }

  /** Every record read from any file stands in it with the checksum of each of its fragments. */
  lemma {:induction false} NothingMadeUp(crc: Checksum, file: Bytes, p: nat)
    requires p <= |file|
    ensures forall r :: r in ReadAll(crc, file, p).0 ==> IsGenuine(crc, file, r)
    decreases |file| - p
  {
    hide ReadLogical, Stands;
    RecordsAreGenuine(crc, file, p, false, [], 0);
    match ReadLogical(crc, file, p, false, [], 0)
    case End(_) =>
    case Record(record, next, _) => NothingMadeUp(crc, file, next);
  }

  // ----- A damaged log -----

  /** Where the headers of a record's fragments are, for what AddRecord appends at `p`. */
  ghost function Headers(p: nat, payload: Bytes): (r: seq<nat>)
    ensures r != [] && r[0] == HeaderPlace(p)
    decreases |payload|, BlockEnd(p) - p == HEADER_SIZE
  {
    var q := HeaderPlace(p);
    var avail := BlockEnd(q) - q - HEADER_SIZE;
    if |payload| <= avail then [q] else [q] + Headers(BlockEnd(q), payload[avail..])
  }

  /** `file` is `log` but for the checksum, the type and the payload of the fragment at `q`. */
  ghost predicate DamagedAt(file: Bytes, log: Bytes, q: nat) {
    && |file| == |log| && FragmentInside(log, q)
    && forall i :: 0 <= i < |log| && (i < q || q + 4 <= i < q + 6 || q + HEADER_SIZE + Announced(log, q) <= i) ==> file[i] == log[i]
  }

  /** How many of the headers are at or behind `e`. */
  ghost function Behind(headers: seq<nat>, e: nat): nat {
    if headers == [] then 0 else (if headers[0] >= e then 1 else 0) + Behind(headers[1..], e)
  }

  /** Fragments at or behind `e` of records begun before it: the reader meets them without their beginning. */
  ghost function Orphans(crc: Checksum, p: nat, records: seq<Bytes>, e: nat): nat
    decreases records
  {
    if records == [] || HeaderPlace(p) >= e then 0 else
      Behind(Headers(p, records[0]), e) + Orphans(crc, p + |Fragments(crc, p % BLOCK_SIZE, records[0], true)|, records[1..], e)
  }

  /** Bytes too few for a header are filled with zeros. */
  lemma TrailerIsZero(crc: Checksum, p: nat, payload: Bytes, i: nat)
    requires i < HeaderPlace(p) - p
    ensures var whole := Fragments(crc, p % BLOCK_SIZE, payload, true); i < |whole| && whole[i] == 0
  {
    hide Fragments, Zeros;
    FragmentsStep(crc, p % BLOCK_SIZE, payload, true);
    var n := BLOCK_SIZE - p % BLOCK_SIZE;
    assert HeaderPlace(p) == p + n;
    ZerosAreZero(n, i);
  }

  lemma ZerosAreZero(n: nat, i: nat)
    requires i < n
    ensures Zeros(n)[i] == 0
  {
  }

  lemma Place(p: nat)
    ensures var h, offset := HeaderPlace(p), p % BLOCK_SIZE;
      && BlockEnd(h) - h == BLOCK_SIZE - h % BLOCK_SIZE && BlockEnd(h) % BLOCK_SIZE == 0
      && (if BLOCK_SIZE - offset < HEADER_SIZE then h == p + (BLOCK_SIZE - offset) && h % BLOCK_SIZE == 0 else h == p)
  {
  }

  /** The fragments from a header on. */
  lemma PieceAt(crc: Checksum, h: nat, payload: Bytes, begin: bool)
    requires HeaderPlace(h) == h
    ensures var avail := BlockEnd(h) - h - HEADER_SIZE;
      Fragments(crc, h % BLOCK_SIZE, payload, begin) ==
        if |payload| <= avail then Physical(crc, TypeOf(begin, true), payload)
        else Physical(crc, TypeOf(begin, false), payload[..avail]) + Fragments(crc, 0, payload[avail..], false)
  {
    hide Fragments, Physical, BlockEnd, HeaderPlace;
    Place(h);
    FragmentsStep(crc, h % BLOCK_SIZE, payload, begin);
    var avail := BlockEnd(h) - h - HEADER_SIZE;
    if |payload| > avail {
      FragmentsStep(crc, BLOCK_SIZE, payload[avail..], false);
      assert Zeros(0) + Fragments(crc, 0, payload[avail..], false) == Fragments(crc, 0, payload[avail..], false);
    }
  }

  /** One fragment of what AddRecord appends at `p`. */
  lemma OnePiece(crc: Checksum, p: nat, payload: Bytes, begin: bool)
    ensures var h := HeaderPlace(p);
      var avail := BlockEnd(h) - h - HEADER_SIZE;
      && p <= h < p + HEADER_SIZE && (h != p ==> h == BlockEnd(p) && h % BLOCK_SIZE == 0) && BlockEnd(h) % BLOCK_SIZE == 0
      && HeaderPlace(h) == h
      && Fragments(crc, p % BLOCK_SIZE, payload, begin) == Zeros(h - p) +
           if |payload| <= avail then Physical(crc, TypeOf(begin, true), payload)
           else Physical(crc, TypeOf(begin, false), payload[..avail]) + Fragments(crc, 0, payload[avail..], false)
  {
    hide Fragments, Physical;
    var h := HeaderPlace(p);
    Place(p);
    PieceAt(crc, h, payload, begin);
    if h != p {
      FragmentsStep(crc, p % BLOCK_SIZE, payload, begin);
    } else {
      assert Zeros(0) + Fragments(crc, p % BLOCK_SIZE, payload, begin) == Fragments(crc, p % BLOCK_SIZE, payload, begin);
    }
  }

  /** The bytes of `whole`, appended at `p`, are in the file from `from` up to `to`. */
  ghost predicate Has(file: Bytes, p: nat, whole: Bytes, from: nat, to: nat) {
    p + |whole| <= |file| && forall i :: p <= i < p + |whole| && from <= i < to ==> file[i] == whole[i - p]
  }

  lemma HasParts(file: Bytes, p: nat, a: Bytes, b: Bytes, from: nat, to: nat)
    requires Has(file, p, a + b, from, to)
    ensures Has(file, p, a, from, to) && Has(file, p + |a|, b, from, to)
  {
    forall i | p + |a| <= i < p + |a| + |b| && from <= i < to ensures file[i] == b[i - p - |a|] {
      assert file[i] == (a + b)[i - p];
    }
    forall i | p <= i < p + |a| && from <= i < to ensures file[i] == a[i - p] {
      assert file[i] == (a + b)[i - p];
    }
  }

  lemma HasAll(file: Bytes, p: nat, whole: Bytes, from: nat, to: nat)
    requires Has(file, p, whole, from, to) && from <= p && p + |whole| <= to
    ensures HoldsAt(file, p, whole)
  {
    assert forall i :: 0 <= i < |whole| ==> file[p + i] == whole[i];
  }

  /** Up to a fragment the record reads as it was written. */
  lemma {:induction false} ReadsUpTo(crc: Checksum, file: Bytes, p: nat, payload: Bytes, begin: bool, scratch: Bytes, reports: nat, q: nat)
    returns (s: Bytes)
    requires q in Headers(p, payload) && Has(file, p, Fragments(crc, p % BLOCK_SIZE, payload, begin), p, q)
    requires begin ==> scratch == []
    ensures p <= q <= |file| && HeaderPlace(q) == q
    ensures ReadLogical(crc, file, p, !begin, scratch, reports) == ReadLogical(crc, file, q, !(begin && q == HeaderPlace(p)), s, reports)
    decreases |payload|, BlockEnd(p) - p == HEADER_SIZE
  {
    hide ReadLogical, Fragments, Physical, HoldsAt;
    OnePiece(crc, p, payload, begin);
    var h := HeaderPlace(p);
    var avail := BlockEnd(h) - h - HEADER_SIZE;
    if h != p {
      TrailerIsSkipped(crc, file, p, h, !begin, scratch, reports);
    }
    if q == h {
      s := scratch;
    } else {
      var piece, rest := Physical(crc, TypeOf(begin, false), payload[..avail]), Fragments(crc, 0, payload[avail..], false);
      HasParts(file, p, Zeros(h - p), piece + rest, p, q);
      HasParts(file, h, piece, rest, p, q);
      HeadersBehind(BlockEnd(h), payload[avail..]);
      HasAll(file, h, piece, p, q);
      ReadsOne(crc, file, h, payload[..avail], begin, false, scratch, reports);
      s := ReadsUpTo(crc, file, BlockEnd(h), payload[avail..], false, scratch + payload[..avail], reports, q);
    }
  }

  lemma {:induction false} HeadersBehind(p: nat, payload: Bytes)
    ensures forall q :: q in Headers(p, payload) ==> p <= q
    decreases |payload|, BlockEnd(p) - p == HEADER_SIZE
  {
    var h := HeaderPlace(p);
    var avail := BlockEnd(h) - h - HEADER_SIZE;
    if |payload| > avail {
      HeadersBehind(BlockEnd(h), payload[avail..]);
    }
  }

  /** At a spoiled fragment the rest of the block is dropped, with one report, and one more if a record had begun. */
  lemma DropsBlock(crc: Checksum, file: Bytes, q: nat, inFragment: bool, scratch: Bytes, reports: nat)
    requires HeaderPlace(q) == q && Spoiled(crc, file, q)
    ensures var more := reports + (if inFragment then 2 else 1);
      ReadLogical(crc, file, q, inFragment, scratch, reports) ==
        if |file| < BlockEnd(q) then End(more) else ReadLogical(crc, file, BlockEnd(q), false, [], more)
  {
    hide ReadPhysical, BlockEnd, HeaderPlace;
    PhysicalOnBytes(crc, file, q);
    if |file| < BlockEnd(q) {
      NothingLeft(crc, file);
      ReportsOnlyAdd(crc, file, |file|, false, [], 0, reports + (if inFragment then 2 else 1));
    }
  }

  lemma PassesOrphan(crc: Checksum, file: Bytes, p: nat, end: bool, fragment: Bytes, from: nat, reports: nat)
    requires p % BLOCK_SIZE == 0 && HEADER_SIZE + |fragment| <= BLOCK_SIZE && from <= p
    requires Has(file, p, Physical(crc, TypeOf(false, end), fragment), from, |file|)
    ensures ReadLogical(crc, file, p, false, [], reports) ==
      ReadLogical(crc, file, p + HEADER_SIZE + |fragment|, false, [], reports + 1)
  {
    hide ReadPhysical, Physical, HoldsAt;
    HasAll(file, p, Physical(crc, TypeOf(false, end), fragment), from, |file|);
    PhysicalComplete(crc, file, p, TypeOf(false, end), fragment);
  }

  /** Fragments without a beginning are passed over, each with a report. */
  lemma {:induction false} PassesOrphans(crc: Checksum, file: Bytes, p: nat, payload: Bytes, e: nat, reports: nat)
    requires p % BLOCK_SIZE == 0 && e <= p && Has(file, p, Fragments(crc, 0, payload, false), e, |file|)
    ensures ReadLogical(crc, file, p, false, [], reports) ==
      ReadLogical(crc, file, p + |Fragments(crc, 0, payload, false)|, false, [], reports + Behind(Headers(p, payload), e))
    decreases |payload|
  {
    hide ReadLogical, Fragments, Physical, HoldsAt;
    OnePiece(crc, p, payload, false);
    assert Zeros(0) == [];
    var avail := BlockEnd(p) - p - HEADER_SIZE;
    if |payload| <= avail {
      PassesOrphan(crc, file, p, true, payload, e, reports);
    } else {
      var piece, rest := Physical(crc, Middle, payload[..avail]), Fragments(crc, 0, payload[avail..], false);
      HasParts(file, p, piece, rest, e, |file|);
      PassesOrphan(crc, file, p, false, payload[..avail], e, reports);
      PassesOrphans(crc, file, BlockEnd(p), payload[avail..], e, reports + 1);
      assert Headers(p, payload)[1..] == Headers(BlockEnd(p), payload[avail..]);
    }
  }

  /** The first header, and those of the rest. */
  lemma HeadersOf(p: nat, payload: Bytes, e: nat)
    ensures var h := HeaderPlace(p);
      var avail := BlockEnd(h) - h - HEADER_SIZE;
      var first := if h >= e then 1 else 0;
      if |payload| <= avail then Headers(p, payload) == [h] && Behind(Headers(p, payload), e) == first
      else
        && Headers(p, payload) == [h] + Headers(BlockEnd(h), payload[avail..])
        && Behind(Headers(p, payload), e) == first + Behind(Headers(BlockEnd(h), payload[avail..]), e)
        && forall q :: q in Headers(BlockEnd(h), payload[avail..]) ==> BlockEnd(h) <= q
  {
    hide HeaderPlace, BlockEnd;
    var h := HeaderPlace(p);
    var avail := BlockEnd(h) - h - HEADER_SIZE;
    if |payload| > avail {
      HeadersBehind(BlockEnd(h), payload[avail..]);
      assert Headers(p, payload)[1..] == Headers(BlockEnd(h), payload[avail..]);
    } else {
      assert Headers(p, payload)[1..] == [];
    }
  }

  /** What is left of a record behind the block of one of its fragments. */
  lemma {:induction false} PassesRest(crc: Checksum, file: Bytes, p: nat, payload: Bytes, begin: bool, q: nat, reports: nat)
    requires q in Headers(p, payload) && Has(file, p, Fragments(crc, p % BLOCK_SIZE, payload, begin), BlockEnd(q), |file|)
    ensures var e, n := BlockEnd(q), p + |Fragments(crc, p % BLOCK_SIZE, payload, begin)|;
      && q + HEADER_SIZE <= n
      && (n <= e ==> Behind(Headers(p, payload), e) == 0)
      && (n > e ==> ReadLogical(crc, file, e, false, [], reports) ==
                    ReadLogical(crc, file, n, false, [], reports + Behind(Headers(p, payload), e)))
    decreases |payload|, BlockEnd(p) - p == HEADER_SIZE
  {
    hide ReadLogical, Fragments, Physical, HoldsAt, Headers, Behind, Has;
    OnePiece(crc, p, payload, begin);
    HeadersOf(p, payload, BlockEnd(q));
    var h := HeaderPlace(p);
    var avail, next := BlockEnd(h) - h - HEADER_SIZE, BlockEnd(h);
    if |payload| > avail {
      var piece, rest := Physical(crc, TypeOf(begin, false), payload[..avail]), Fragments(crc, 0, payload[avail..], false);
      HasParts(file, p, Zeros(h - p), piece + rest, BlockEnd(q), |file|);
      HasParts(file, h, piece, rest, BlockEnd(q), |file|);
      OnePiece(crc, next, payload[avail..], false);
      if q == h {
        PassesOrphans(crc, file, next, payload[avail..], next, reports);
      } else {
        PassesRest(crc, file, next, payload[avail..], false, q, reports);
      }
    }
  }

  /** Where record `i` begins. */
  function StartOf(crc: Checksum, start: nat, records: seq<Bytes>, i: nat): nat
    requires i <= |records|
  {
    start + |Log(crc, start, records[..i])|
  }

  lemma StartOfNext(crc: Checksum, start: nat, records: seq<Bytes>, i: nat)
    requires records != [] && i < |records|
    ensures var n := start + |Fragments(crc, start % BLOCK_SIZE, records[0], true)|;
      StartOf(crc, start, records, i + 1) == StartOf(crc, n, records[1..], i)
  {
    assert records[..i + 1][1..] == records[1..][..i];
  }

  /** A record's bytes hold its first header, so the next record begins behind that. */
  lemma HeaderBeforeEnd(crc: Checksum, p: nat, payload: Bytes, begin: bool)
    ensures HeaderPlace(p) + HEADER_SIZE <= p + |Fragments(crc, p % BLOCK_SIZE, payload, begin)|
  {
    OnePiece(crc, p, payload, begin);
  }

  /** Records that begin behind `start` have their headers there. */
  lemma {:induction false} StartsAscend(crc: Checksum, start: nat, records: seq<Bytes>, i: nat)
    requires i <= |records|
    ensures start <= StartOf(crc, start, records, i) <= StartOf(crc, start, records, |records|)
    ensures i < |records| ==>
              HeaderPlace(StartOf(crc, start, records, i)) + HEADER_SIZE <= StartOf(crc, start, records, |records|)
    decreases records
  {
    hide Fragments, HeaderPlace;
    if records != [] {
      var n := start + |Fragments(crc, start % BLOCK_SIZE, records[0], true)|;
      HeaderBeforeEnd(crc, start, records[0], true);
      StartsAscend(crc, n, records[1..], if i == 0 then 0 else i - 1);
      StartOfNext(crc, start, records, |records| - 1);
      StartsAscend(crc, n, records[1..], |records| - 1);
      if i > 0 {
        StartOfNext(crc, start, records, i - 1);
      }
    }
  }

  lemma PlacesAscend(p: nat, q: nat)
    requires p <= q
    ensures HeaderPlace(p) <= HeaderPlace(q)
  {
    if BlockEnd(p) != BlockEnd(q) {
      assert p / BLOCK_SIZE < q / BLOCK_SIZE;
    }
  }

  /** The records that begin before `e` and those that do not. */
  ghost predicate SplitsAt(crc: Checksum, start: nat, records: seq<Bytes>, e: nat, j: nat) {
    j <= |records| && forall i :: 0 <= i < |records| ==> (i < j <==> HeaderPlace(StartOf(crc, start, records, i)) < e)
  }

  lemma NoneBegins(crc: Checksum, start: nat, records: seq<Bytes>, e: nat)
    requires records != [] ==> HeaderPlace(start) >= e
    ensures SplitsAt(crc, start, records, e, 0)
  {
    hide HeaderPlace, Log;
    forall i | 0 <= i < |records| ensures HeaderPlace(StartOf(crc, start, records, i)) >= e {
      StartsAscend(crc, start, records, i);
      PlacesAscend(start, StartOf(crc, start, records, i));
    }
  }

  lemma FirstStarts(crc: Checksum, start: nat, records: seq<Bytes>)
    ensures StartOf(crc, start, records, 0) == start
  {
  }

  lemma OneMoreBegins(crc: Checksum, start: nat, records: seq<Bytes>, e: nat, n: nat, j: nat)
    requires records != [] && HeaderPlace(start) < e && n == start + |Fragments(crc, start % BLOCK_SIZE, records[0], true)|
    requires SplitsAt(crc, n, records[1..], e, j)
    ensures SplitsAt(crc, start, records, e, j + 1)
  {
    hide HeaderPlace, Fragments, StartOf;
    FirstStarts(crc, start, records);
    forall i | 0 < i < |records|
      ensures StartOf(crc, start, records, i) == StartOf(crc, n, records[1..], i - 1)
    {
      StartOfNext(crc, start, records, i - 1);
    }
  }

  lemma SameBlock(p: nat, e: nat)
    requires p <= e && (p == e || BlockEnd(p) == e) && e % BLOCK_SIZE == 0
    ensures HeaderPlace(p) < e ==> HeaderPlace(p) == p && BlockEnd(p) == e
    ensures HeaderPlace(p) >= e ==> HeaderPlace(p) == e
    ensures forall n :: p <= n < e ==> BlockEnd(n) == e
    ensures forall n :: e <= n ==> HeaderPlace(n) >= e
  {
  }

  lemma LogStarts(crc: Checksum, p: nat, records: seq<Bytes>)
    requires records != []
    ensures var first := Fragments(crc, p % BLOCK_SIZE, records[0], true);
      Log(crc, p, records) == first + Log(crc, p + |first|, records[1..])
  {
    hide Fragments;
  }

  function Later(e: nat, p: nat): nat {
    if p < e then e else p
  }

  /** From a block boundary on, the reader takes up the records that begin there or later. */
  lemma {:induction false} TakesUp(crc: Checksum, file: Bytes, p: nat, records: seq<Bytes>, e: nat, reports: nat) returns (j: nat)
    requires p <= e <= |file| == StartOf(crc, p, records, |records|) && (p == e || BlockEnd(p) == e) && e % BLOCK_SIZE == 0
    requires Has(file, p, Log(crc, p, records), e, |file|)
    ensures SplitsAt(crc, p, records, e, j) && j <= |records| && StartOf(crc, p, records, j) <= |file|
    ensures ReadLogical(crc, file, e, false, [], reports) ==
      ReadLogical(crc, file, Later(e, StartOf(crc, p, records, j)), false, [], reports + Orphans(crc, p, records, e))
    decreases records
  {
    hide ReadLogical, Fragments, Headers, Behind, HoldsAt, Has, SplitsAt, HeaderPlace, BlockEnd, Log, StartOf;
    SameBlock(p, e);
    FirstStarts(crc, p, records);
    if records == [] || HeaderPlace(p) >= e {
      j := 0;
      NoneBegins(crc, p, records, e);
    } else {
      var n := p + |Fragments(crc, p % BLOCK_SIZE, records[0], true)|;
      StartOfNext(crc, p, records, |records| - 1);
      LogStarts(crc, p, records);
      FirstStarts(crc, n, records[1..]);
      HasParts(file, p, Fragments(crc, p % BLOCK_SIZE, records[0], true), Log(crc, n, records[1..]), e, |file|);
      PassesRest(crc, file, p, records[0], true, p, reports);
      if n <= e {
        j := TakesUp(crc, file, n, records[1..], e, reports);
        OneMoreBegins(crc, p, records, e, n, j);
        j := j + 1;
      } else {
        NoneBegins(crc, n, records[1..], e);
        OneMoreBegins(crc, p, records, e, n, 0);
        j := 1;
      }
      StartOfLater(crc, p, records, j);
    }
    StartsAscend(crc, p, records, j);
  }

  lemma StartOfLater(crc: Checksum, start: nat, records: seq<Bytes>, j: nat)
    requires records != [] && 0 < j <= |records|
    ensures StartOf(crc, start, records, j) ==
      StartOf(crc, start + |Fragments(crc, start % BLOCK_SIZE, records[0], true)|, records[1..], j - 1)
  {
    StartOfNext(crc, start, records, j - 1);
  }

  lemma {:induction false} LogConcat(crc: Checksum, start: nat, a: seq<Bytes>, b: seq<Bytes>)
    ensures Log(crc, start, a + b) == Log(crc, start, a) + Log(crc, start + |Log(crc, start, a)|, b)
    decreases a
  {
    hide Fragments;
    if a == [] {
      assert a + b == b;
    } else {
      var first := Fragments(crc, start % BLOCK_SIZE, a[0], true);
      assert (a + b)[1..] == a[1..] + b;
      LogConcat(crc, start + |first|, a[1..], b);
    }
  }

  /** The records after the first `k`, from where those end. */
  lemma StartOfRest(crc: Checksum, start: nat, records: seq<Bytes>, k: nat, i: nat)
    requires k <= i <= |records|
    ensures StartOf(crc, start, records, i) == StartOf(crc, StartOf(crc, start, records, k), records[k..], i - k)
  {
    hide Log;
    assert records[..i] == records[..k] + records[k..][..i - k];
    LogConcat(crc, start, records[..k], records[k..][..i - k]);
  }

  /** Records whose bytes are all there are read, and then the rest. */
  lemma {:induction false} ReadsFirst(crc: Checksum, file: Bytes, start: nat, records: seq<Bytes>)
    requires start + |Log(crc, start, records)| <= |file| && HoldsAt(file, start, Log(crc, start, records))
    ensures var rest := ReadAll(crc, file, start + |Log(crc, start, records)|);
      ReadAll(crc, file, start) == (records + rest.0, rest.1)
    decreases records
  {
    hide ReadLogical, HoldsAt, Fragments, ReadAll;
    if records == [] {
      var rest := ReadAll(crc, file, start);
      assert [] + rest.0 == rest.0;
    } else {
      NextRecord(crc, file, start);
      var first := Fragments(crc, start % BLOCK_SIZE, records[0], true);
      HoldsSplit(file, start, first, Log(crc, start + |first|, records[1..]));
      ReadsBack(crc, file, start, start % BLOCK_SIZE, records[0], true, [], 0);
      ReadsFirst(crc, file, start + |first|, records[1..]);
      var rest := ReadAll(crc, file, start + |Log(crc, start, records)|);
      assert records + rest.0 == [records[0]] + (records[1..] + rest.0);
      assert [] + records[0] == records[0];
    }
  }

  lemma {:induction false} NoneBehind(crc: Checksum, p: nat, payload: Bytes, begin: bool, e: nat)
    requires p + |Fragments(crc, p % BLOCK_SIZE, payload, begin)| <= e
    ensures Behind(Headers(p, payload), e) == 0
    decreases |payload|, BlockEnd(p) - p == HEADER_SIZE
  {
    hide Fragments, Physical, Headers, Behind;
    OnePiece(crc, p, payload, begin);
    HeadersOf(p, payload, e);
    var h := HeaderPlace(p);
    var avail := BlockEnd(h) - h - HEADER_SIZE;
    if |payload| > avail {
      NoneBehind(crc, BlockEnd(h), payload[avail..], false, e);
    }
  }

  lemma {:induction false} NoOrphans(crc: Checksum, p: nat, records: seq<Bytes>, e: nat)
    requires StartOf(crc, p, records, |records|) <= e
    ensures Orphans(crc, p, records, e) == 0 && SplitsAt(crc, p, records, e, |records|)
    decreases records
  {
    hide Fragments, Headers, Behind;
    if records != [] {
      var n := p + |Fragments(crc, p % BLOCK_SIZE, records[0], true)|;
      StartOfNext(crc, p, records, |records| - 1);
      StartsAscend(crc, n, records[1..], 0);
      NoneBehind(crc, p, records[0], true, e);
      NoOrphans(crc, n, records[1..], e);
    }
    forall i | 0 <= i < |records| ensures HeaderPlace(StartOf(crc, p, records, i)) < e {
      StartsAscend(crc, p, records, i);
    }
  }

  lemma {:induction false} AllAreWhole(crc: Checksum, start: nat, records: seq<Bytes>)
    ensures Whole(crc, start, records, |Log(crc, start, records)|) == |records|
    decreases records
  {
    hide Fragments;
    if records != [] {
      AllAreWhole(crc, start + |Fragments(crc, start % BLOCK_SIZE, records[0], true)|, records[1..]);
    }
  }

  /** The same log from its first header on. */
  lemma FromPlace(crc: Checksum, p: nat, records: seq<Bytes>)
    requires records != [] && p < HeaderPlace(p)
    ensures var h := HeaderPlace(p); Log(crc, p, records) == Zeros(h - p) + Log(crc, h, records)
  {
    hide Fragments, HeaderPlace;
    var h := HeaderPlace(p);
    Place(p);
    FragmentsStep(crc, p % BLOCK_SIZE, records[0], true);
    var first := Fragments(crc, h % BLOCK_SIZE, records[0], true);
    assert p + |Zeros(h - p) + first| == h + |first|;
  }

  /** Records behind the damaged block are read as they are. */
  lemma Undamaged(crc: Checksum, file: Bytes, p: nat, records: seq<Bytes>, e: nat)
    requires |file| == p + |Log(crc, p, records)| && Has(file, p, Log(crc, p, records), e, |file|)
    requires p < e ==> records != [] && HeaderPlace(p) == e
    ensures Later(e, p) <= |file| && ReadAll(crc, file, Later(e, p)) == (records, 0)
  {
    hide Log, HoldsAt, ReadAll, Has, HeaderPlace, Zeros;
    if p < e {
      FromPlace(crc, p, records);
      HasParts(file, p, Zeros(e - p), Log(crc, e, records), e, |file|);
    }
    HasAll(file, Later(e, p), Log(crc, Later(e, p), records), e, |file|);
    AllAreWhole(crc, Later(e, p), records);
    TruncatedLogReads(crc, file, Later(e, p), records);
    assert records[..|records|] == records;
  }

  lemma Jumps(crc: Checksum, file: Bytes, a: nat, b: nat, reports: nat)
    requires a <= |file| && b <= |file|
    requires ReadLogical(crc, file, a, false, [], 0) == ReadLogical(crc, file, b, false, [], reports)
    ensures ReadAll(crc, file, a) == (ReadAll(crc, file, b).0, reports + ReadAll(crc, file, b).1)
  {
    hide ReadLogical, ReadAll;
    ReadAllStep(crc, file, a, 0);
    ReadAllStep(crc, file, b, reports);
  }

  lemma UndamagedRest(crc: Checksum, file: Bytes, n: nat, rest: seq<Bytes>, e: nat, i: nat)
    requires i <= |rest| && SplitsAt(crc, n, rest, e, i) && e % BLOCK_SIZE == 0 && e <= |file|
    requires |file| == StartOf(crc, n, rest, |rest|) && Has(file, n, Log(crc, n, rest), e, |file|)
    ensures var p := Later(e, StartOf(crc, n, rest, i)); p <= |file| && ReadAll(crc, file, p) == (rest[i..], 0)
  {
    hide Log, Has, ReadAll, Fragments, HeaderPlace, BlockEnd;
    var p := StartOf(crc, n, rest, i);
    assert rest == rest[..i] + rest[i..] && rest == rest[..|rest|];
    LogConcat(crc, n, rest[..i], rest[i..]);
    HasParts(file, n, Log(crc, n, rest[..i]), Log(crc, p, rest[i..]), e, |file|);
    if p < e {
      assert i < |rest|;
      HeaderAtBorder(p, e);
    }
    Undamaged(crc, file, p, rest[i..], e);
  }

  lemma NoneOrphaned(crc: Checksum, p: nat, records: seq<Bytes>, e: nat)
    requires p >= e
    ensures Orphans(crc, p, records, e) == 0
  {
  }

  lemma LogOfFirst(crc: Checksum, p: nat, records: seq<Bytes>)
    requires records != []
    ensures var first := Fragments(crc, p % BLOCK_SIZE, records[0], true); Log(crc, p, records) == first + Log(crc, p + |first|, records[1..])
  {
    hide Fragments;
  }

  lemma HeaderAtBorder(p: nat, e: nat)
    requires p < e && e % BLOCK_SIZE == 0 && HeaderPlace(p) >= e
    ensures HeaderPlace(p) == e
  {
  }

  /** The reports that damage at `q` in the record that begins at `p` causes: one for the checksum, one for the record if it had
      begun, and one for each fragment left without its beginning. */
  ghost function Reports(crc: Checksum, p: nat, records: seq<Bytes>, q: nat): nat
    requires records != []
  {
    var e, n := BlockEnd(q), p + |Fragments(crc, p % BLOCK_SIZE, records[0], true)|;
    1 + (if q == HeaderPlace(p) then 0 else 1) + Behind(Headers(p, records[0]), e) + Orphans(crc, n, records[1..], e)
  }

  /** From the end of the damaged block on: what is left of the damaged record is passed over, and records lost with the block. */
  lemma TakesUpAfter(crc: Checksum, file: Bytes, p: nat, records: seq<Bytes>, q: nat) returns (i: nat)
    requires records != [] && q in Headers(p, records[0]) && BlockEnd(q) <= |file| == StartOf(crc, p, records, |records|)
    requires Has(file, p, Log(crc, p, records), BlockEnd(q), |file|)
    ensures var e, n, rest := BlockEnd(q), p + |Fragments(crc, p % BLOCK_SIZE, records[0], true)|, records[1..];
      && SplitsAt(crc, n, rest, e, i) && i <= |rest|
      && ReadAll(crc, file, e) == (rest[i..], Behind(Headers(p, records[0]), e) + Orphans(crc, n, rest, e))
  {
    hide ReadLogical, Fragments, Headers, Behind, HoldsAt, Has, SplitsAt, ReadAll, HeaderPlace, BlockEnd, Orphans, Log, StartOf;
    var first := Fragments(crc, p % BLOCK_SIZE, records[0], true);
    var e, n, rest := BlockEnd(q), p + |first|, records[1..];
    LogOfFirst(crc, p, records);
    HasParts(file, p, first, Log(crc, n, rest), e, |file|);
    StartOfNext(crc, p, records, |rest|);
    PassesRest(crc, file, p, records[0], true, q, 0);
    var orphans := Behind(Headers(p, records[0]), e);
    if n <= e {
      i := TakesUp(crc, file, n, rest, e, orphans);
    } else {
      i := 0;
      NoneBegins(crc, n, rest, e);
      NoneOrphaned(crc, n, rest, e);
      FirstStarts(crc, n, rest);
    }
    UndamagedRest(crc, file, n, rest, e, i);
    Jumps(crc, file, e, Later(e, StartOf(crc, n, rest, i)), orphans + Orphans(crc, n, rest, e));
  }

  /** What is read from the damaged record on. */
  lemma ReadsOn(crc: Checksum, file: Bytes, p: nat, records: seq<Bytes>, q: nat) returns (i: nat)
    requires records != [] && q in Headers(p, records[0]) && Spoiled(crc, file, q)
    requires |file| == StartOf(crc, p, records, |records|)
    requires Has(file, p, Log(crc, p, records), p, q) && Has(file, p, Log(crc, p, records), BlockEnd(q), |file|)
    ensures p <= |file| && i < |records|
    ensures ReadAll(crc, file, p) == (records[1..][i..], Reports(crc, p, records, q))
    ensures SplitsAt(crc, p + |Fragments(crc, p % BLOCK_SIZE, records[0], true)|, records[1..], BlockEnd(q), i)
  {
    hide ReadLogical, Fragments, Headers, Behind, HoldsAt, Has, SplitsAt, Spoiled, Orphans, ReadAll, HeaderPlace, BlockEnd;
    var first := Fragments(crc, p % BLOCK_SIZE, records[0], true);
    var e, n, rest := BlockEnd(q), p + |first|, records[1..];
    HasParts(file, p, first, Log(crc, n, rest), p, q);
    StartOfNext(crc, p, records, |rest|);
    StartsAscend(crc, n, rest, 0);
    var s := ReadsUpTo(crc, file, p, records[0], true, [], 0, q);
    DropsBlock(crc, file, q, q != HeaderPlace(p), s, 0);
    var reports := if q == HeaderPlace(p) then 1 else 2;
    if |file| < e {
      NoneBehind(crc, p, records[0], true, e);
      NoOrphans(crc, n, rest, e);
      i := |rest|;
      ReadAllStep(crc, file, p, 0);
      assert rest[i..] == [];
    } else {
      i := TakesUpAfter(crc, file, p, records, q);
      Jumps(crc, file, p, e, reports);
    }
  }

  /** Damage to the checksum, type or payload of a fragment that its checksum shows: the record it belongs to is not read, nor
      are those whose first header stands behind it in the block; all others are, and the reports are counted. */
  lemma DamageIsContained(crc: Checksum, records: seq<Bytes>, k: nat, q: nat, file: Bytes) returns (j: nat)
    requires k < |records| && q in Headers(StartOf(crc, 0, records, k), records[k])
    requires DamagedAt(file, Log(crc, 0, records), q) && Spoiled(crc, file, q)
    ensures k < j <= |records|
    ensures ReadAll(crc, file, 0) == (records[..k] + records[j..], Reports(crc, StartOf(crc, 0, records, k), records[k..], q))
    ensures forall i :: k < i < |records| ==> (i < j <==> HeaderPlace(StartOf(crc, 0, records, i)) < BlockEnd(q))
  {
    hide ReadLogical, Fragments, Headers, Behind, HoldsAt, Spoiled, Reports, ReadAll, HeaderPlace, Log;
    var log, p, tail := Log(crc, 0, records), StartOf(crc, 0, records, k), records[k..];
    var before := Log(crc, 0, records[..k]);
    assert records == records[..k] + tail && records[..|records|] == records;
    LogConcat(crc, 0, records[..k], tail);
    HeadersBehind(p, records[k]);
    assert Has(file, 0, log, 0, q) && Has(file, 0, log, BlockEnd(q), |file|);
    HasParts(file, 0, before, Log(crc, p, tail), 0, q);
    HasParts(file, 0, before, Log(crc, p, tail), BlockEnd(q), |file|);
    HasAll(file, 0, before, 0, q);
    ReadsFirst(crc, file, 0, records[..k]);
    assert tail[..|tail|] == tail;
    var m := ReadsOn(crc, file, p, tail, q);
    j := k + 1 + m;
    assert tail[1..] == records[k + 1..] && tail[1..][m..] == records[j..];
    forall i | k < i < |records| ensures i < j <==> HeaderPlace(StartOf(crc, 0, records, i)) < BlockEnd(q) {
      StartOfRest(crc, 0, records, k, i);
      StartOfLater(crc, p, tail, i - k);
    }
  }
}
