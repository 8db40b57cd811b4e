/**
 The arithmetic of a multipart upload: how the browser cuts a file into parts, and how the parts that
 storage lists back make the file again.
 */
module UploadSlices {
  import opened Outcomes

  const PART_SIZE_BYTES: nat := 64 * 1024 * 1024

  newtype byte = x: int | 0 <= x < 256

  /** `max(1, ceil(size / PART_SIZE_BYTES))`. */
  function TotalParts(size: nat): (n: nat)
    ensures n >= 1
    ensures size > 0 ==> (n - 1) * PART_SIZE_BYTES < size <= n * PART_SIZE_BYTES
  {
    Max(1, (size + PART_SIZE_BYTES - 1) / PART_SIZE_BYTES)
  }

  /** Where part `n`, counted from 1, starts and ends in the file. */
  function Start(n: nat): int {
    (n - 1) * PART_SIZE_BYTES
  }

  function End(file: seq<byte>, n: nat): int {
    Min(Start(n) + PART_SIZE_BYTES, |file|)
  }

  function Slice(file: seq<byte>, n: nat): seq<byte>
    requires 1 <= n <= TotalParts(|file|)
    ensures |Slice(file, n)| == End(file, n) - Start(n)
  {
    file[Start(n)..End(file, n)]
  }

  function Slices(file: seq<byte>): (s: seq<seq<byte>>)
    ensures |s| == TotalParts(|file|)
  {
    seq(TotalParts(|file|), i requires 0 <= i < TotalParts(|file|) => Slice(file, i + 1))
  }

  function Flatten(parts: seq<seq<byte>>): seq<byte> {
    if parts == [] then [] else Flatten(parts[..|parts| - 1]) + parts[|parts| - 1]
  }

  lemma SliceEnds(size: nat, n: nat)
    requires 1 <= n <= TotalParts(size)
    ensures Start(n) <= size
    ensures n < TotalParts(size) ==> Start(n + 1) == Start(n) + PART_SIZE_BYTES <= size
    ensures n == TotalParts(size) ==> size <= Start(n) + PART_SIZE_BYTES
    ensures size > 0 ==> Start(n) < size
  {
  }

  /** Slice by slice, the first `k` slices are the file up to where slice `k` ends. */
  lemma {:induction false} LeadingSlices(file: seq<byte>, k: nat)
    requires 1 <= k <= TotalParts(|file|)
    ensures Flatten(Slices(file)[..k]) == file[..End(file, k)]
  {
    hide TotalParts;
    var s := Slices(file);
    SliceEnds(|file|, k);
    assert s[..k][..k - 1] == s[..k - 1] && s[..k][k - 1] == Slice(file, k);
    if k == 1 {
      assert Slice(file, 1) == file[..End(file, 1)];
    } else {
      LeadingSlices(file, k - 1);
      SliceEnds(|file|, k - 1);
      assert file[..End(file, k)] == file[..Start(k)] + Slice(file, k);
    }
  }

  /** The slices tile the file: no byte is lost, repeated or moved. All but the last are full, and none is empty. */
  lemma SlicesTile(file: seq<byte>)
    ensures Flatten(Slices(file)) == file
    ensures forall n :: 1 <= n < TotalParts(|file|) ==> |Slice(file, n)| == PART_SIZE_BYTES
    ensures file != [] ==> 0 < |Slice(file, TotalParts(|file|))| <= PART_SIZE_BYTES
  {
    hide TotalParts;
    var total := TotalParts(|file|);
    forall n | 1 <= n <= total
      ensures n < total ==> |Slice(file, n)| == PART_SIZE_BYTES
      ensures n == total && file != [] ==> 0 < |Slice(file, n)| <= PART_SIZE_BYTES
    {
      SliceEnds(|file|, n);
    }
    SliceEnds(|file|, total);
    LeadingSlices(file, total);
    assert Slices(file)[..total] == Slices(file) && file[..|file|] == file;
  }

  // ---------------------------------------------------------------- reassembly

  /** A part as storage lists it; its ETag stands for the bytes it was computed from. */
  datatype Part = Part(number: nat, data: seq<byte>)

  predicate DistinctNumbers(parts: seq<Part>) {
    forall i, j :: 0 <= i < j < |parts| ==> parts[i].number != parts[j].number
  }

  predicate SortedByNumber(parts: seq<Part>) {
    forall i, j :: 0 <= i < j < |parts| ==> parts[i].number <= parts[j].number
  }

  function Insert(p: Part, parts: seq<Part>): seq<Part> {
    if parts == [] || p.number <= parts[0].number then [p] + parts else [parts[0]] + Insert(p, parts[1..])
  }

  /** `sorted(real_parts, key=PartNumber)`. */
  function Sorted(parts: seq<Part>): seq<Part> {
    if parts == [] then [] else Insert(parts[0], Sorted(parts[1..]))
  }

  lemma {:induction false} InsertAdds(p: Part, parts: seq<Part>)
    ensures |Insert(p, parts)| == |parts| + 1 && forall q :: q in Insert(p, parts) <==> q == p || q in parts
  {
    if parts != [] && p.number > parts[0].number {
      InsertAdds(p, parts[1..]);
      assert parts == [parts[0]] + parts[1..];
    }
  }

  lemma {:induction false} InsertSorts(p: Part, parts: seq<Part>)
    requires SortedByNumber(parts) && DistinctNumbers(parts)
    requires forall q :: q in parts ==> q.number != p.number
    ensures SortedByNumber(Insert(p, parts)) && DistinctNumbers(Insert(p, parts))
  {
    if parts != [] && p.number > parts[0].number {
      InsertSorts(p, parts[1..]);
      InsertAdds(p, parts[1..]);
      assert forall q :: q in parts[1..] ==> q.number > parts[0].number;
      Prepended(parts[0], Insert(p, parts[1..]));
    }
  }

  lemma Prepended(first: Part, rest: seq<Part>)
    requires SortedByNumber(rest) && DistinctNumbers(rest) && forall q :: q in rest ==> q.number > first.number
    ensures SortedByNumber([first] + rest) && DistinctNumbers([first] + rest)
  {
    assert forall i :: 0 <= i < |rest| ==> rest[i] in rest;
  }

  /** Sorting a listing of distinct parts keeps exactly those parts and puts their numbers in increasing order. */
  lemma {:induction false} SortedSorts(parts: seq<Part>)
    requires DistinctNumbers(parts)
    ensures var r := Sorted(parts);
      SortedByNumber(r) && DistinctNumbers(r) && |r| == |parts| && forall q :: q in r <==> q in parts
  {
    if parts != [] {
      SortedSorts(parts[1..]);
      assert forall q :: q in parts[1..] ==> q.number != parts[0].number;
      InsertSorts(parts[0], Sorted(parts[1..]));
      InsertAdds(parts[0], Sorted(parts[1..]));
      hide Insert;
    }
  }

  /** Distinct numbers drawn from `1..n`, `n` of them and in order, can only be `1, 2, ..., n`. */
  lemma {:induction false} PartNumbersAreAllOfThem(parts: seq<Part>, low: nat, k: nat)
    requires SortedByNumber(parts) && DistinctNumbers(parts)
    requires forall i :: 0 <= i < |parts| ==> low < parts[i].number <= low + |parts|
    requires k < |parts|
    ensures parts[k].number == low + k + 1
  {
    NumbersClimb(parts, low, k);
    NumbersLeaveRoom(parts, k, |parts| - 1);
  }

  lemma {:induction false} NumbersClimb(parts: seq<Part>, low: nat, k: nat)
    requires SortedByNumber(parts) && DistinctNumbers(parts)
    requires forall i :: 0 <= i < |parts| ==> low < parts[i].number
    requires k < |parts|
    ensures low + k + 1 <= parts[k].number
  {
    if k > 0 { NumbersClimb(parts, low, k - 1); }
  }

  lemma {:induction false} NumbersLeaveRoom(parts: seq<Part>, k: nat, last: nat)
    requires SortedByNumber(parts) && DistinctNumbers(parts)
    requires k <= last < |parts|
    ensures parts[k].number + (last - k) <= parts[last].number
    decreases last
  {
    if k < last { NumbersLeaveRoom(parts, k, last - 1); }
  }

  function DataOf(parts: seq<Part>): (d: seq<seq<byte>>)
    ensures |d| == |parts|
  {
    seq(|parts|, i requires 0 <= i < |parts| => parts[i].data)
  }

  lemma SortedNumbers(parts: seq<Part>, k: nat)
    requires DistinctNumbers(parts) && k < |parts|
    requires forall p :: p in parts ==> 1 <= p.number <= |parts|
    ensures |Sorted(parts)| == |parts| && Sorted(parts)[k] in parts && Sorted(parts)[k].number == k + 1
  {
    SortedSorts(parts);
    var s := Sorted(parts);
    assert forall i :: 0 <= i < |s| ==> s[i] in s;
    PartNumbersAreAllOfThem(s, 0, k);
  }

  lemma SortedPart(file: seq<byte>, parts: seq<Part>, k: nat)
    requires DistinctNumbers(parts) && |parts| == TotalParts(|file|) && k < |parts|
    requires forall p :: p in parts ==> 1 <= p.number <= TotalParts(|file|) && p.data == Slice(file, p.number)
    ensures |Sorted(parts)| == |parts| && DataOf(Sorted(parts))[k] == Slices(file)[k]
  {
    hide DistinctNumbers, SortedByNumber, Sorted, Slice, TotalParts;
    SortedNumbers(parts, k);
  }

  /** Whatever order storage lists them in, the full set of a file's slices sorts back into the file. */
  lemma SortedSlicesMakeTheFile(file: seq<byte>, parts: seq<Part>)
    requires DistinctNumbers(parts) && |parts| == TotalParts(|file|)
    requires forall p :: p in parts ==> 1 <= p.number <= TotalParts(|file|) && p.data == Slice(file, p.number)
    ensures Flatten(DataOf(Sorted(parts))) == file
  {
    hide *;
    var s, slices := DataOf(Sorted(parts)), Slices(file);
    SortedSorts(parts);
    forall k | 0 <= k < |parts| ensures s[k] == slices[k] {
      SortedPart(file, parts, k);
    }
    assert s == slices;
    SlicesTile(file);
  }
}
