/** Filters: sets of hashed elements, written as bytes, read back and queried. */
module GcsFilter {
  import opened Numbers
  import opened Wrappers
  import opened BitStrings
  import opened BitStreams
  import opened CompactSize
  import opened GcsModel
  import opened GcsValues

  /** The coding parameter and the inverse false positive rate. */
  datatype Params = Params(p: nat, m: nat)

  datatype Filter = Filter(params: Params, n: nat, f: nat, encoded: seq<nat>)

  ghost predicate ParamsOk(params: Params) {
    params.p < 64 && params.m < M32
  }

  /** Hashes are mapped to numbers below the number of elements times the rate. */
  function Range(n: nat, m: nat): nat {
    n * m
  }

  // ----- codes on a stream

  method GolombRiceEncode(w: BitStreamWriter, p: nat, x: nat)
    requires w.Valid() && p < 64
    modifies w
    ensures w.Valid() && w.Written() == old(w.Written()) + Rice(x, p)
  {
    WriteOnes(w, HighBits(x, p));
    w.Write(0, 1);
    ZeroBits(1);
    w.Write(x, p);
    assert Repeat(false, 1) == [false];
    Regroup(old(w.Written()), Repeat(true, HighBits(x, p)), [false], BitsOf(x, p));
  }

  /** Ones, up to 64 at a time. */
  method WriteOnes(w: BitStreamWriter, n: nat)
    requires w.Valid()
    modifies w
    ensures w.Valid() && w.Written() == old(w.Written()) + Repeat(true, n)
  {
    var q: nat := n;
    while q > 0
      invariant w.Valid() && q <= n && w.Written() == old(w.Written()) + Repeat(true, n - q)
    {
      var nbits := Min(q, 64);
      MoreOnes(old(w.Written()), n - q, nbits);
      w.Write(M64 - 1, nbits);
      q := q - nbits;
    }
  }

  lemma MoreOnes(before: seq<bool>, done: nat, n: nat)
    requires n <= 64
    ensures before + Repeat(true, done) + BitsOf(M64 - 1, n) == before + Repeat(true, done + n)
  {
    var m := 64;
    Power64(m);
    OneBits(n, m);
  }

  lemma Regroup(a: seq<bool>, b: seq<bool>, c: seq<bool>, d: seq<bool>)
    ensures a + b + c + d == a + (b + c + d)
  {
  }

  method GolombRiceDecode(r: BitStreamReader, p: nat) returns (x: Option<nat>)
    requires r.Valid() && r.offset > 0 && p < 64
    modifies r
    ensures r.Valid() && r.offset > 0
    ensures x.None? <==> CodeLength(old(r.Remaining()), p) > |old(r.Remaining())|
    ensures x.Some? ==> x.value == CodeValue(old(r.Remaining()), p)
    ensures x.Some? ==> r.Remaining() == old(r.Remaining())[CodeLength(old(r.Remaining()), p)..]
  {
    ghost var all := r.Remaining();
    var q := ReadUnary(r);
    if q.None? {
      return None;
    }
    ghost var rest := r.Remaining();
    var low := r.Read(p);
    if low.None? {
      return None;
    }
    assert all[q.value + 1..][..p] == all[q.value + 1..q.value + 1 + p];
    assert all[q.value + 1..][p..] == all[q.value + 1 + p..];
    x := Some((Product(q.value, Pow2(p)) + low.value) % M64);
  }

  /** Ones up to the next zero. */
  method ReadUnary(r: BitStreamReader) returns (q: Option<nat>)
    requires r.Valid() && r.offset > 0
    modifies r
    ensures r.Valid() && r.offset > 0
    ensures q.None? <==> LeadingOnes(old(r.Remaining())) == |old(r.Remaining())|
    ensures q.Some? ==> q.value == LeadingOnes(old(r.Remaining())) < |old(r.Remaining())|
    ensures q.Some? ==> r.Remaining() == old(r.Remaining())[q.value + 1..]
  {
    ghost var all := r.Remaining();
    var n: nat := 0;
    var bit := ReadBit(r);
    while bit == Some(true)
      invariant r.Valid() && r.offset > 0 && n <= |all|
      invariant forall i :: 0 <= i < n ==> all[i]
      invariant bit.None? ==> n == |all|
      invariant bit.Some? ==> n < |all| && all[n] == bit.value && r.Remaining() == all[n + 1..]
      decreases |all| - n, bit.Some?
    {
      n := n + 1;
      bit := ReadBit(r);
    }
    LeadingOnesAre(all, n);
    q := if bit.None? then None else Some(n);
  }

  lemma {:induction false} LeadingOnesAre(bits: seq<bool>, n: nat)
    requires n <= |bits| && (n < |bits| ==> !bits[n]) && forall i :: 0 <= i < n ==> bits[i]
    ensures LeadingOnes(bits) == n
  {
    if n > 0 {
      LeadingOnesAre(bits[1..], n - 1);
    }
  }

  method ReadBit(r: BitStreamReader) returns (bit: Option<bool>)
    requires r.Valid() && r.offset > 0
    modifies r
    ensures r.Valid() && r.offset > 0
    ensures bit.None? <==> old(r.Remaining()) == []
    ensures bit.Some? ==> bit.value == old(r.Remaining())[0] && r.Remaining() == old(r.Remaining())[1..]
  {
    ghost var all := r.Remaining();
    var x := r.Read(1);
    if x.None? {
      return None;
    }
    OneBit(all);
    bit := Some(x.value == 1);
  }

  lemma OneBit(all: seq<bool>)
    requires all != []
    ensures NumberOf(all[..1]) == if all[0] then 1 else 0
  {
    assert all[..1][..0] == [];
  }

  // ----- hashed sets

  type Hash = x: nat | x < M64

  function HashToRange<E>(hash: E -> Hash, f: nat, e: E): nat {
    MapIntoRange(hash(e), f)
  }

  /** An element is mapped to the range in proportion to its 64-bit hash. */
  lemma HashToRangeIs<E>(hash: E -> Hash, f: nat, e: E)
    ensures HashToRange(hash, f, e) == hash(e) * f / 0x1_0000_0000_0000_0000
    ensures f > 0 ==> HashToRange(hash, f, e) < f
  {
    MapIntoRangeIs(hash(e), f);
  }

  function InsertSorted(s: seq<nat>, x: nat): (r: seq<nat>) {
    if s == [] || x <= s[0] then [x] + s else [s[0]] + InsertSorted(s[1..], x)
  }

  ghost predicate AtLeast(s: seq<nat>, x: nat) {
    forall i :: 0 <= i < |s| ==> x <= s[i]
  }

  lemma {:induction false} InsertAtLeast(s: seq<nat>, x: nat, y: nat)
    requires AtLeast(s, y) && y <= x
    ensures AtLeast(InsertSorted(s, x), y)
  {
    if s != [] && x > s[0] {
      InsertAtLeast(s[1..], x, y);
    }
  }

  lemma ConsSorted(x: nat, s: seq<nat>)
    requires Sorted(s) && AtLeast(s, x)
    ensures Sorted([x] + s)
  {
  }

  lemma {:induction false} InsertKeepsSorted(s: seq<nat>, x: nat)
    requires Sorted(s)
    ensures Sorted(InsertSorted(s, x))
  {
    if s == [] || x <= s[0] {
      assert AtLeast(s, x);
      ConsSorted(x, s);
    } else {
      InsertKeepsSorted(s[1..], x);
      assert AtLeast(s[1..], s[0]);
      InsertAtLeast(s[1..], x, s[0]);
      ConsSorted(s[0], InsertSorted(s[1..], x));
    }
  }

  lemma {:induction false} InsertKeepsElements(s: seq<nat>, x: nat)
    ensures multiset(InsertSorted(s, x)) == multiset(s) + multiset{x}
  {
    if s != [] && x > s[0] {
      InsertKeepsElements(s[1..], x);
      assert s == [s[0]] + s[1..];
    }
  }

  function Sort(s: seq<nat>): (r: seq<nat>) {
    if s == [] then [] else InsertSorted(Sort(s[..|s| - 1]), s[|s| - 1])
  }

  lemma {:induction false} SortSorts(s: seq<nat>)
    ensures Sorted(Sort(s))
  {
    if s != [] {
      SortSorts(s[..|s| - 1]);
      InsertKeepsSorted(Sort(s[..|s| - 1]), s[|s| - 1]);
    }
  }

  lemma {:induction false} SortKeeps(s: seq<nat>)
    ensures multiset(Sort(s)) == multiset(s)
  {
    if s != [] {
      SortKeeps(s[..|s| - 1]);
      InsertKeepsElements(Sort(s[..|s| - 1]), s[|s| - 1]);
      assert s == s[..|s| - 1] + [s[|s| - 1]];
    }
  }

  lemma SameElements(s: seq<nat>, r: seq<nat>, x: nat)
    requires multiset(s) == multiset(r)
    ensures |s| == |r| && (x in s <==> x in r)
  {
    assert |multiset(s)| == |s| && |multiset(r)| == |r|;
    assert x in s <==> x in multiset(s);
  }

  /** Some element of the one and some of the other hash to the same value. */
  ghost predicate Common<E(!new)>(hash: E -> Hash, f: nat, a: seq<E>, b: seq<E>) {
    exists i, j :: 0 <= i < |a| && 0 <= j < |b| && HashToRange(hash, f, a[i]) == HashToRange(hash, f, b[j])
  }

  /** The values in the order of the elements, then sorted. */
  method BuildHashedSet<E>(hash: E -> Hash, f: nat, elements: seq<E>) returns (r: seq<nat>)
    ensures Sorted(r) && |r| == |elements|
    ensures forall i :: 0 <= i < |elements| ==> HashToRange(hash, f, elements[i]) in r
    ensures forall x :: x in r ==> exists i :: 0 <= i < |elements| && HashToRange(hash, f, elements[i]) == x
  {
    var hashed: seq<nat> := [];
    while |hashed| < |elements|
      invariant |hashed| <= |elements|
      invariant forall i :: 0 <= i < |hashed| ==> hashed[i] == HashToRange(hash, f, elements[i])
    {
      hashed := hashed + [HashToRange(hash, f, elements[|hashed|])];
    }
    r := Sort(hashed);
    SortSorts(hashed);
    SortKeeps(hashed);
    SameElements(hashed, r, 0);
    forall x
      ensures x in hashed <==> x in r
    {
      SameElements(hashed, r, x);
    }
  }

  // ----- building

  /** The bits of a filter are the codes of its differences and less than a byte more. */
  ghost predicate Coded(bits: seq<bool>, ds: seq<nat>, p: nat) {
    Codes(ds, p) <= bits && |bits| < |Codes(ds, p)| + 8
  }

  ghost predicate Encodes(filter: Filter, values: seq<nat>) {
    && ParamsOk(filter.params) && filter.n == |values| < M32 && filter.f == Range(filter.n, filter.params.m)
    && Sorted(values) && AllBelow(values, M64)
    && AllBelow(filter.encoded, 256) && WriteSize(filter.n) <= filter.encoded
    && Coded(BytesBits(filter.encoded[|WriteSize(filter.n)|..]), Differences(values), filter.params.p)
  }

  /** The codes of the differences, value by value. */
  method WriteValues(values: seq<nat>, p: nat) returns (body: seq<nat>)
    requires p < 64 && Sorted(values)
    ensures Coded(BytesBits(body), Differences(values), p) && AllBelow(body, 256)
  {
    var w := new BitStreamWriter([]);
    WriteAll(w, values, p);
    body := Finish(w);
  }

  method WriteAll(w: BitStreamWriter, values: seq<nat>, p: nat)
    requires p < 64 && Sorted(values) && w.Valid() && w.Written() == []
    modifies w
    ensures w.Valid() && w.Written() == Codes(Differences(values), p)
  {
    ghost var ds := Differences(values);
    var i: nat, last: nat := 0, 0;
    while i < |values|
      invariant i <= |values| && last == Before(values, i) && w.Valid() && w.Written() == Codes(ds[..i], p)
    {
      WriteNext(w, values[i] - last, ds, i, p);
      last := values[i];
      i := i + 1;
    }
    assert ds[..i] == ds;
  }

  method WriteNext(w: BitStreamWriter, delta: nat, ghost ds: seq<nat>, ghost i: nat, p: nat)
    requires p < 64 && w.Valid() && i < |ds| && ds[i] == delta && w.Written() == Codes(ds[..i], p)
    modifies w
    ensures w.Valid() && w.Written() == Codes(ds[..i + 1], p)
  {
    NextCode(ds, i, p);
    GolombRiceEncode(w, p, delta);
  }

  lemma NextCode(ds: seq<nat>, i: nat, p: nat)
    requires i < |ds|
    ensures Codes(ds[..i + 1], p) == Codes(ds[..i], p) + Rice(ds[i], p)
  {
    CodesSnoc(ds[..i], ds[i], p);
    assert ds[..i + 1] == ds[..i] + [ds[i]];
  }

  /** The bytes of a stream, the last one filled up. */
  method Finish(w: BitStreamWriter) returns (body: seq<nat>)
    requires w.Valid()
    modifies w
    ensures old(w.Written()) <= BytesBits(body) && |BytesBits(body)| < |old(w.Written())| + 8
    ensures AllBelow(body, 256)
  {
    w.Flush();
    body := w.out;
  }

  /** A filter of a set of elements, listed in any order. */
  method Build<E>(params: Params, hash: E -> Hash, elements: seq<E>) returns (r: Option<Filter>, ghost values: seq<nat>)
    requires ParamsOk(params)
    ensures r.None? <==> |elements| >= M32
    ensures r.Some? ==> r.value.params == params && Encodes(r.value, values) && |values| == |elements|
    ensures r.Some? ==> forall i :: 0 <= i < |elements| ==> HashToRange(hash, r.value.f, elements[i]) in values
    ensures r.Some? ==> forall x :: x in values ==>
      exists i :: 0 <= i < |elements| && HashToRange(hash, r.value.f, elements[i]) == x
  {
    if |elements| >= M32 {
      return None, [];
    }
    var n := |elements|;
    var f := Range(n, params.m);
    var hashed := BuildHashedSet(hash, f, elements);
    InRange(hash, f, elements, hashed, params.m);
    var body := WriteValues(hashed, params.p);
    var head := WriteSize(n);
    assert (head + body)[|head|..] == body;
    return Some(Filter(params, n, f, head + body)), hashed;
  }

  lemma InRange<E>(hash: E -> Hash, f: nat, elements: seq<E>, values: seq<nat>, m: nat)
    requires |elements| < M32 && m < M32 && f == Range(|elements|, m)
    requires forall x :: x in values ==> exists i :: 0 <= i < |elements| && HashToRange(hash, f, elements[i]) == x
    ensures AllBelow(values, M64)
  {
    RangeFits(|elements|, m);
    forall i | 0 <= i < |values|
      ensures values[i] < M64
    {
      assert values[i] in values;
      var j :| 0 <= j < |elements| && HashToRange(hash, f, elements[j]) == values[i];
      MapIntoRangeIs(hash(elements[j]), f);
      if f == 0 {
        ZeroRange(hash(elements[j]), f);
      }
    }
  }

  lemma RangeFits(n: nat, m: nat)
    requires n < M32 && m < M32
    ensures n * m < M64
  {
    MulMonotone(n, M32 - 1, m);
  }

  lemma ZeroRange(x: nat, f: nat)
    requires f == 0
    ensures MapIntoRange(x, f) == 0
  {
  }

  // ----- reading and matching

  /** Bytes that hold exactly the number of codes they announce. */
  ghost predicate Acceptable(bytes: seq<nat>, p: nat) {
    var size := ReadSize(bytes);
    size.Some? && size.value.used <= |bytes| && ExactCodes(bytes[size.value.used..], size.value.n, p)
  }

  /** So many codes, and less than a byte after them. */
  ghost predicate ExactCodes(body: seq<nat>, n: nat, p: nat) {
    SkipCodes(BytesBits(body), n, p).Some? && |SkipCodes(BytesBits(body), n, p).value| < 8
  }

  lemma SizeFits(bytes: seq<nat>)
    requires AllBelow(bytes, 256)
    ensures var size := ReadSize(bytes); size.Some? ==> size.value.used <= |bytes| && size.value.n <= MAX_SIZE
  {
  }

  method SkipAll(r: BitStreamReader, n: nat, p: nat) returns (ok: bool)
    requires r.Valid() && r.offset > 0 && p < 64
    modifies r
    ensures r.Valid() && r.offset > 0
    ensures ok <==> SkipCodes(old(r.Remaining()), n, p).Some?
    ensures ok ==> r.Remaining() == SkipCodes(old(r.Remaining()), n, p).value
  {
    var i: nat := 0;
    while i < n
      invariant i <= n && r.Valid() && r.offset > 0
      invariant SkipCodes(r.Remaining(), n - i, p) == SkipCodes(old(r.Remaining()), n, p)
    {
      var x := GolombRiceDecode(r, p);
      if x.None? {
        return false;
      }
      i := i + 1;
    }
    ok := true;
  }

  method CheckBody(bytes: seq<nat>, used: nat, n: nat, p: nat) returns (ok: bool)
    requires used <= |bytes| && p < 64
    ensures ok <==> ExactCodes(bytes[used..], n, p)
  {
    var reader := new BitStreamReader(bytes, used);
    ok := SkipAll(reader, n, p);
    if ok {
      reader.AtEnd();
      ok := reader.pos == |bytes|;
    }
  }

  method Load(params: Params, bytes: seq<nat>) returns (r: Option<Filter>)
    requires ParamsOk(params) && AllBelow(bytes, 256)
    ensures r.Some? <==> Acceptable(bytes, params.p)
    ensures r.Some? ==>
      r.value == Filter(params, ReadSize(bytes).value.n, Range(ReadSize(bytes).value.n, params.m), bytes)
  {
    var size := ReadSize(bytes);
    SizeFits(bytes);
    if size.None? {
      return None;
    }
    var n := size.value.n;
    var ok := CheckBody(bytes, size.value.used, n, params.p);
    r := if ok then Some(Filter(params, n, Range(n, params.m), bytes)) else None;
  }

  /** The reader accepts what the builder wrote exactly when the number of elements is
      within the limit of a size it reads. */
  lemma BuiltIsAcceptable(filter: Filter, values: seq<nat>)
    requires Encodes(filter, values)
    ensures Acceptable(filter.encoded, filter.params.p) <==> filter.n <= MAX_SIZE
    ensures filter.n <= MAX_SIZE ==> ReadSize(filter.encoded) == Some(Sized(filter.n, |WriteSize(filter.n)|))
    ensures filter.n > MAX_SIZE ==> ReadSize(filter.encoded).None?
  {
    var head, p, ds := WriteSize(filter.n), filter.params.p, Differences(values);
    var body := filter.encoded[|head|..];
    assert filter.encoded == head + body;
    ReadWriteSize(filter.n, body);
    var tail := BytesBits(body)[|Codes(ds, p)|..];
    assert BytesBits(body) == Codes(ds, p) + tail;
    SmallDifferences(values);
    SkipAllCodes(ds, p, tail);
  }

  lemma SmallDifferences(values: seq<nat>)
    requires Sorted(values) && AllBelow(values, M64)
    ensures AllBelow(Differences(values), M64)
  {
  }

  /** What a filter is once it was built or read: if its size can be read, it is the
      number of elements and as many codes follow. */
  ghost predicate Usable(filter: Filter) {
    && ParamsOk(filter.params) && AllBelow(filter.encoded, 256)
    && match ReadSize(filter.encoded)
       case None => true
       case Some(size) =>
         && size.n == filter.n && size.used <= |filter.encoded|
         && SkipCodes(BytesBits(filter.encoded[size.used..]), filter.n, filter.params.p).Some?
  }

  /** The numbers in a filter. */
  ghost function ValuesOf(filter: Filter): seq<nat>
    requires Usable(filter) && ReadSize(filter.encoded).Some?
  {
    ReadValues(BytesBits(filter.encoded[ReadSize(filter.encoded).value.used..]), filter.n, filter.params.p, 0)
  }

  /** A filter that was read is usable, whoever wrote it. */
  lemma LoadedIsUsable(filter: Filter)
    requires ParamsOk(filter.params) && AllBelow(filter.encoded, 256) && Acceptable(filter.encoded, filter.params.p)
    requires filter.n == ReadSize(filter.encoded).value.n
    ensures Usable(filter) && ReadSize(filter.encoded).Some?
  {
    SizeFits(filter.encoded);
  }

  /** A filter that was built is usable, and holds the values it was built from. */
  lemma BuiltIsUsable(filter: Filter, values: seq<nat>)
    requires Encodes(filter, values)
    ensures Usable(filter)
    ensures ReadSize(filter.encoded).Some? <==> filter.n <= MAX_SIZE
    ensures filter.n <= MAX_SIZE ==> ValuesOf(filter) == values
  {
    BuiltIsAcceptable(filter, values);
    var head, p, ds := WriteSize(filter.n), filter.params.p, Differences(values);
    var bits := BytesBits(filter.encoded[|head|..]);
    var tail := bits[|Codes(ds, p)|..];
    assert bits == Codes(ds, p) + tail;
    ReadDifferences(values, p, tail);
  }

  /** Where the pass stands before value `i`: no peak so far is a query, the queries left
      behind are below some value so far, and the next one is above all of them. */
  ghost predicate Passed(values: seq<nat>, queries: seq<nat>, i: nat, k: nat) {
    && i <= |values| && k <= |queries|
    && (forall j :: 0 <= j < i && IsPeak(values, j) ==> values[j] !in queries)
    && (forall b :: 0 <= b < k ==> Exceeded(values, queries[b], i))
    && (k < |queries| ==> forall a :: 0 <= a < i ==> values[a] < queries[k])
  }

  ghost predicate Exceeded(values: seq<nat>, query: nat, i: nat)
    requires i <= |values|
  {
    exists a :: 0 <= a < i && values[a] > query
  }

  /** A query that a value exceeded is no later peak. */
  lemma BehindPeak(values: seq<nat>, query: nat, i: nat, j: nat)
    requires i <= j < |values| && Exceeded(values, query, i) && IsPeak(values, j)
    ensures values[j] != query
  {
    var a :| 0 <= a < i && values[a] > query;
    assert values[a] <= values[j];
  }

  lemma NothingReached(values: seq<nat>, queries: seq<nat>, i: nat)
    requires i <= |values| && forall j :: 0 <= j < i && IsPeak(values, j) ==> values[j] !in queries
    requires i == |values| || forall b :: 0 <= b < |queries| ==> Exceeded(values, queries[b], i)
    ensures !Reaches(values, queries)
  {
    forall j | i <= j < |values| && IsPeak(values, j) ensures values[j] !in queries {
      forall b | 0 <= b < |queries| ensures queries[b] != values[j] {
        BehindPeak(values, queries[b], i, j);
      }
    }
  }

  /** Queries below the value are skipped; one that equals it ends the search. */
  method Advance(ghost values: seq<nat>, queries: seq<nat>, ghost i: nat, value: nat, k0: nat)
    returns (found: Option<bool>, k: nat)
    requires Sorted(queries) && i < |values| && values[i] == value && Passed(values, queries, i, k0)
    ensures found.Some? ==> (found.value <==> Reaches(values, queries))
    ensures found.None? ==> Passed(values, queries, i + 1, k)
  {
    k := k0;
    while k < |queries| && queries[k] < value
      invariant k0 <= k <= |queries|
      invariant forall b :: 0 <= b < k0 ==> Exceeded(values, queries[b], i)
      invariant forall b :: k0 <= b < k ==> queries[b] < value
      invariant k < |queries| ==> forall a :: 0 <= a < i ==> values[a] < queries[k]
    {
      k := k + 1;
    }
    if k < |queries| && queries[k] == value {
      assert IsPeak(values, i);
      return Some(true), k;
    }
    SkippedExceeded(values, queries, i, k0, k);
    LastPeak(values, queries, i, k0, k);
    if k == |queries| {
      NothingReached(values, queries, i + 1);
      return Some(false), k;
    }
    found := None;
  }

  lemma SkippedExceeded(values: seq<nat>, queries: seq<nat>, i: nat, k0: nat, k: nat)
    requires i < |values| && k0 <= k <= |queries|
    requires forall b :: 0 <= b < k0 ==> Exceeded(values, queries[b], i)
    requires forall b :: k0 <= b < k ==> queries[b] < values[i]
    ensures forall b :: 0 <= b < k ==> Exceeded(values, queries[b], i + 1)
  {
    forall b | 0 <= b < k ensures Exceeded(values, queries[b], i + 1) {
      if b < k0 {
        assert Exceeded(values, queries[b], i);
        var a :| 0 <= a < i && values[a] > queries[b];
      } else {
        assert values[i] > queries[b];
      }
    }
  }

  /** The value just passed is no query, unless it is no peak. */
  lemma LastPeak(values: seq<nat>, queries: seq<nat>, i: nat, k0: nat, k: nat)
    requires Sorted(queries) && i < |values| && k0 <= k <= |queries| && Passed(values, queries, i, k0)
    requires forall b :: k0 <= b < k ==> queries[b] < values[i]
    requires k < |queries| ==> queries[k] > values[i]
    ensures IsPeak(values, i) ==> values[i] !in queries
  {
    if IsPeak(values, i) {
      forall b | 0 <= b < |queries| ensures queries[b] != values[i] {
        if b < k0 {
          BehindPeak(values, queries[b], i, i);
        }
        assert k < b ==> queries[k] <= queries[b];
      }
    }
  }

  /** What is left to be read: the codes of the values from `i` on. */
  ghost predicate AtValue(rest: seq<bool>, values: seq<nat>, i: nat, p: nat, value: nat) {
    && i <= |values| && SkipCodes(rest, |values| - i, p).Some?
    && ReadValues(rest, |values| - i, p, value) == values[i..]
  }

  method NextValue(r: BitStreamReader, p: nat, value: nat, ghost values: seq<nat>, ghost i: nat) returns (next: nat)
    requires r.Valid() && r.offset > 0 && p < 64 && i < |values| && AtValue(r.Remaining(), values, i, p, value)
    modifies r
    ensures r.Valid() && r.offset > 0 && next == values[i] && AtValue(r.Remaining(), values, i + 1, p, next)
  {
    ghost var rest := r.Remaining();
    ghost var read := ReadValues(rest, |values| - i, p, value);
    assert read[0] == values[i] && read[1..] == values[i + 1..];
    var delta := GolombRiceDecode(r, p);
    next := Add64(value, delta.value);
  }

  /** One pass over the values of any usable filter and the sorted queries. */
  method MatchInternal(filter: Filter, queries: seq<nat>) returns (r: Option<bool>)
    requires Usable(filter) && Sorted(queries)
    ensures r.Some? <==> ReadSize(filter.encoded).Some?
    ensures r.Some? ==> (r.value <==> Reaches(ValuesOf(filter), queries))
  {
    var size := ReadSize(filter.encoded);
    if size.None? {
      return None;
    }
    assert size.value.n == filter.n;
    var b := MatchCodes(filter, size.value.used, queries);
    r := Some(b);
  }

  method MatchCodes(filter: Filter, used: nat, queries: seq<nat>) returns (b: bool)
    requires Usable(filter) && ReadSize(filter.encoded) == Some(Sized(filter.n, used)) && Sorted(queries)
    ensures b <==> Reaches(ValuesOf(filter), queries)
  {
    var p := filter.params.p;
    var reader := new BitStreamReader(filter.encoded, used);
    ghost var values := ValuesOf(filter);
    assert values[0..] == values;
    var value: nat, k: nat, i: nat := 0, 0, 0;
    while i < filter.n
      invariant i <= filter.n == |values| && reader.Valid() && reader.offset > 0
      invariant AtValue(reader.Remaining(), values, i, p, value)
      invariant Passed(values, queries, i, k)
    {
      value := NextValue(reader, p, value, values, i);
      var found;
      found, k := Advance(values, queries, i, value, k);
      if found.Some? {
        return found.value;
      }
      i := i + 1;
    }
    NothingReached(values, queries, i);
    b := false;
  }

  // ----- queries by element

  /** Some query hashes to a value that no earlier value of the filter exceeds. */
  ghost predicate Hit<E(!new)>(hash: E -> Hash, f: nat, values: seq<nat>, queries: seq<E>) {
    exists i, j :: 0 <= i < |values| && 0 <= j < |queries| && HitAt(hash, f, values, queries, i, j)
  }

  ghost predicate HitAt<E(!new)>(hash: E -> Hash, f: nat, values: seq<nat>, queries: seq<E>, i: nat, j: nat)
    requires i < |values| && j < |queries|
  {
    IsPeak(values, i) && HashToRange(hash, f, queries[j]) == values[i]
  }

  lemma HitIsReached<E(!new)>(hash: E -> Hash, f: nat, values: seq<nat>, queries: seq<E>, hashed: seq<nat>)
    requires forall i :: 0 <= i < |queries| ==> HashToRange(hash, f, queries[i]) in hashed
    requires forall x :: x in hashed ==> exists i :: 0 <= i < |queries| && HashToRange(hash, f, queries[i]) == x
    ensures Reaches(values, hashed) <==> Hit(hash, f, values, queries)
  {
    if Reaches(values, hashed) {
      var i :| 0 <= i < |values| && IsPeak(values, i) && values[i] in hashed;
      var j :| 0 <= j < |queries| && HashToRange(hash, f, queries[j]) == values[i];
      assert HitAt(hash, f, values, queries, i, j);
    }
    if Hit(hash, f, values, queries) {
      var i, j :| 0 <= i < |values| && 0 <= j < |queries| && HitAt(hash, f, values, queries, i, j);
      assert values[i] in hashed;
    }
  }

  /** For sorted values that is a common value. */
  lemma HitIsCommon<E(!new)>(hash: E -> Hash, f: nat, elements: seq<E>, values: seq<nat>, queries: seq<E>)
    requires Sorted(values)
    requires forall i :: 0 <= i < |elements| ==> HashToRange(hash, f, elements[i]) in values
    requires forall x :: x in values ==> exists i :: 0 <= i < |elements| && HashToRange(hash, f, elements[i]) == x
    ensures Hit(hash, f, values, queries) <==> Common(hash, f, elements, queries)
  {
    if Hit(hash, f, values, queries) {
      var i, j :| 0 <= i < |values| && 0 <= j < |queries| && HitAt(hash, f, values, queries, i, j);
      assert values[i] in values;
      var k :| 0 <= k < |elements| && HashToRange(hash, f, elements[k]) == values[i];
    }
    if Common(hash, f, elements, queries) {
      var k, j :| 0 <= k < |elements| && 0 <= j < |queries|
        && HashToRange(hash, f, elements[k]) == HashToRange(hash, f, queries[j]);
      var i :| 0 <= i < |values| && values[i] == HashToRange(hash, f, elements[k]);
      assert HitAt(hash, f, values, queries, i, j);
    }
  }

  method MatchAny<E(!new)>(filter: Filter, hash: E -> Hash, queries: seq<E>) returns (r: Option<bool>)
    requires Usable(filter)
    ensures r.Some? <==> ReadSize(filter.encoded).Some?
    ensures r.Some? ==> (r.value <==> Hit(hash, filter.f, ValuesOf(filter), queries))
  {
    var hashed := BuildHashedSet(hash, filter.f, queries);
    r := MatchInternal(filter, hashed);
    if r.Some? {
      HitIsReached(hash, filter.f, ValuesOf(filter), queries, hashed);
    }
  }

  /** Any bytes from a peer, read and queried: whatever is accepted has an answer. */
  method ReceiveMatch<E(!new)>(params: Params, bytes: seq<nat>, hash: E -> Hash, queries: seq<E>)
    returns (answer: Option<bool>)
    requires ParamsOk(params) && AllBelow(bytes, 256)
    ensures answer.Some? <==> Acceptable(bytes, params.p)
    ensures answer.Some? ==>
      var n := ReadSize(bytes).value.n;
      var filter := Filter(params, n, Range(n, params.m), bytes);
      Usable(filter) && (answer.value <==> Hit(hash, filter.f, ValuesOf(filter), queries))
  {
    var read := Load(params, bytes);
    if read.None? {
      return None;
    }
    LoadedIsUsable(read.value);
    answer := MatchAny(read.value, hash, queries);
  }

  /** A filter is built, sent as bytes, read back and queried. The reader takes it exactly
      when its size is within the reader's limit; the answer is then whether some element
      and some query hash to the same value. */
  method BuildSendMatch<E(!new)>(params: Params, hash: E -> Hash, elements: seq<E>, queries: seq<E>)
    returns (loaded: bool, found: bool)
    requires ParamsOk(params) && |elements| < M32
    ensures loaded <==> |elements| <= MAX_SIZE
    ensures loaded ==> (found <==> Common(hash, |elements| * params.m, elements, queries))
  {
    var built;
    ghost var values;
    built, values := Build(params, hash, elements);
    BuiltIsAcceptable(built.value, values);
    BuiltIsUsable(built.value, values);
    var answer := ReceiveMatch(params, built.value.encoded, hash, queries);
    if answer.None? {
      return false, false;
    }
    HitIsCommon(hash, built.value.f, elements, values, queries);
    return true, answer.value;
  }

  /** An element of the set is always found. */
  lemma NoFalseNegative<E(!new)>(hash: E -> Hash, f: nat, elements: seq<E>, queries: seq<E>, e: E)
    requires e in elements && e in queries
    ensures Common(hash, f, elements, queries)
  {
    var i :| 0 <= i < |elements| && elements[i] == e;
    var j :| 0 <= j < |queries| && queries[j] == e;
    assert HashToRange(hash, f, elements[i]) == HashToRange(hash, f, queries[j]);
  }

  /** One element more than the limit makes a filter that its own reader refuses. */
  lemma TooManyElements(body: seq<nat>, p: nat)
    ensures WriteSize(MAX_SIZE + 1) == [254, 1, 0, 0, 2] && !Acceptable([254, 1, 0, 0, 2] + body, p)
  {
    ReadWriteSize(MAX_SIZE + 1, body);
  }
}
