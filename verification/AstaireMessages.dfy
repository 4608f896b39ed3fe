/** What the Astaire parser makes of the messages Astaire sends: whole ones, cut ones, and which rows
    they leave in the tables (src/astairedata.cpp). */
module AstaireMessages {
  import opened Common
  import opened Oids
  import opened OidTree
  import opened Astaire

  // ---- messages ----

  /** How the other end prints addresses and numbers. */
  datatype Writer = Writer(ntop: InetAddr -> string, show: int -> string)

  ghost predicate Printable(v: int) { 0 <= v < 0x8000_0000 }

  // atoi reads back the numbers it prints.
  ghost predicate Understands(lib: Library, w: Writer) {
    forall v | Printable(v) :: lib.atoi(w.show(v)) == v
  }

  /** Plain decimals are understood. */
  lemma DecimalsAreUnderstood(pton: string -> InetAddr, w: Writer)
    requires forall v | Printable(v) :: w.show(v) == Show(v)
    ensures Understands(Library(pton, Atoi), w)
  {
    forall v | Printable(v)
      ensures Atoi(w.show(v)) == v
    {
      AtoiOfShow(v);
    }
  }

  ghost predicate PrintableBucket(b: Bucket) {
    Printable(b.id) && Printable(b.entries) && Printable(b.data) && Printable(b.bandwidth)
  }

  // A connection that can be sent: inet_pton reads its printed address back, its numbers are printable.
  ghost predicate Sendable(lib: Library, w: Writer, c: Connection) {
    && c.addr.IsValid() && lib.pton(w.ntop(c.addr)) == c.addr
    && Printable(c.port) && Printable(c.needingResync) && Printable(c.resynchronized) && Printable(|c.buckets|)
    && forall b | b in c.buckets :: PrintableBucket(b)
  }

  ghost predicate AllSendable(lib: Library, w: Writer, cs: seq<Connection>) {
    forall n | 0 <= n < |cs| :: Sendable(lib, w, cs[n])
  }

  ghost function EncodeHeader(w: Writer, c: Connection): seq<string> {
    [w.ntop(c.addr), w.show(c.port), w.show(c.needingResync), w.show(c.resynchronized), w.show(|c.buckets|)]
  }

  ghost function EncodeBucket(w: Writer, b: Bucket): seq<string> {
    [w.show(b.id), w.show(b.entries), w.show(b.data), w.show(b.bandwidth)]
  }

  ghost function EncodeBuckets(w: Writer, bs: seq<Bucket>): (fields: seq<string>)
    ensures |fields| == 4 * |bs|
  {
    if bs == [] then [] else EncodeBuckets(w, Front(bs)) + EncodeBucket(w, Last(bs))
  }

  ghost function Encode(w: Writer, c: Connection): (fields: seq<string>)
    ensures |fields| == 5 + 4 * |c.buckets|
  {
    EncodeHeader(w, c) + EncodeBuckets(w, c.buckets)
  }

  ghost function EncodeAll(w: Writer, cs: seq<Connection>): seq<string> {
    if cs == [] then [] else Encode(w, cs[0]) + EncodeAll(w, cs[1..])
  }

  // ---- reading them back ----

  // The message has the first n of `fields` from field p on.
  ghost predicate HoldsAt(msgs: seq<string>, p: nat, fields: seq<string>, n: nat) {
    n <= |fields| && p + n <= |msgs| && forall k | 0 <= k < n :: fields[k] == msgs[p + k]
  }

  lemma HoldsBoth(msgs: seq<string>, p: nat, a: seq<string>, b: seq<string>, n: nat)
    requires HoldsAt(msgs, p, a + b, n) && n >= |a|
    ensures HoldsAt(msgs, p, a, |a|) && HoldsAt(msgs, p + |a|, b, n - |a|)
  {
    assert forall k | 0 <= k < |a| :: a[k] == (a + b)[k];
    assert forall k | 0 <= k < |b| :: b[k] == (a + b)[|a| + k];
  }

  lemma NumberReadsBack(lib: Library, w: Writer, v: int)
    requires Understands(lib, w) && Printable(v)
    ensures lib.atoi(w.show(v)) == v
  {
  }

  lemma BucketReadsBack(lib: Library, w: Writer, msgs: seq<string>, p: nat, b: Bucket)
    requires Understands(lib, w) && PrintableBucket(b) && HoldsAt(msgs, p, EncodeBucket(w, b), 4)
    ensures BucketAt(lib, msgs, p) == b
  {
    var fields := EncodeBucket(w, b);
    assert fields[0] == msgs[p] && fields[1] == msgs[p + 1] && fields[2] == msgs[p + 2] && fields[3] == msgs[p + 3];
    NumberReadsBack(lib, w, b.id);
    NumberReadsBack(lib, w, b.entries);
    NumberReadsBack(lib, w, b.data);
    NumberReadsBack(lib, w, b.bandwidth);
  }

  lemma {:induction false} BucketsReadBack(lib: Library, w: Writer, msgs: seq<string>, p: nat, bs: seq<Bucket>)
    requires Understands(lib, w) && HoldsAt(msgs, p, EncodeBuckets(w, bs), 4 * |bs|)
    requires forall b | b in bs :: PrintableBucket(b)
    ensures BucketsAt(lib, msgs, p, |bs|) == bs
  {
    if bs != [] {
      var front, last := Front(bs), Last(bs);
      HoldsBoth(msgs, p, EncodeBuckets(w, front), EncodeBucket(w, last), 4 * |bs|);
      BucketsReadBack(lib, w, msgs, p, front);
      assert last in bs;
      BucketReadsBack(lib, w, msgs, p + 4 * |front|, last);
    }
  }

  lemma HeaderReadsBack(lib: Library, w: Writer, msgs: seq<string>, p: nat, c: Connection)
    requires Understands(lib, w) && Sendable(lib, w, c) && HoldsAt(msgs, p, EncodeHeader(w, c), 5)
    ensures HeaderAt(lib, msgs, p) == c.(buckets := []) && lib.pton(msgs[p]) == c.addr
    ensures lib.atoi(msgs[p + 4]) == |c.buckets|
  {
    var fields := EncodeHeader(w, c);
    assert fields[0] == msgs[p] && fields[1] == msgs[p + 1] && fields[2] == msgs[p + 2];
    assert fields[3] == msgs[p + 3] && fields[4] == msgs[p + 4];
    NumberReadsBack(lib, w, c.port);
    NumberReadsBack(lib, w, c.needingResync);
    NumberReadsBack(lib, w, c.resynchronized);
    NumberReadsBack(lib, w, |c.buckets|);
  }

  // What a message that holds the first n fields of the encoding of cs says.
  ghost function Expected(w: Writer, cs: seq<Connection>, n: nat): Report {
    if cs == [] then Report([], None)
    else if n < |Encode(w, cs[0])| then Report([], if n < 5 then None else Some(cs[0].(buckets := [])))
    else
      Continue([cs[0]], Expected(w, cs[1..], n - |Encode(w, cs[0])|))
  }

  // Five fields or more of a connection's encoding: the parser reads its header.
  lemma FirstHeader(lib: Library, w: Writer, msgs: seq<string>, p: nat, c: Connection, rest: seq<string>, n: nat)
    requires Understands(lib, w) && Sendable(lib, w, c) && HoldsAt(msgs, p, Encode(w, c) + rest, n) && n >= 5
    ensures HeaderAt(lib, msgs, p) == c.(buckets := []) && lib.pton(msgs[p]) == c.addr
    ensures lib.atoi(msgs[p + 4]) == |c.buckets|
  {
    assert Encode(w, c) + rest == EncodeHeader(w, c) + (EncodeBuckets(w, c.buckets) + rest);
    HoldsBoth(msgs, p, EncodeHeader(w, c), EncodeBuckets(w, c.buckets) + rest, n);
    HeaderReadsBack(lib, w, msgs, p, c);
  }

  // All fields of it: the parser reads its buckets too, and goes on with what follows.
  lemma FirstBuckets(lib: Library, w: Writer, msgs: seq<string>, p: nat, c: Connection, rest: seq<string>, n: nat)
    requires Understands(lib, w) && Sendable(lib, w, c)
    requires HoldsAt(msgs, p, Encode(w, c) + rest, n) && n >= |Encode(w, c)|
    ensures BucketsAt(lib, msgs, p + 5, |c.buckets|) == c.buckets
    ensures HoldsAt(msgs, p + |Encode(w, c)|, rest, n - |Encode(w, c)|)
  {
    HoldsBoth(msgs, p, Encode(w, c), rest, n);
    HoldsBoth(msgs, p, EncodeHeader(w, c), EncodeBuckets(w, c.buckets), |Encode(w, c)|);
    BucketsReadBack(lib, w, msgs, p + 5, c.buckets);
  }

  lemma ParseFirst(lib: Library, w: Writer, msgs: seq<string>, p: nat, c: Connection, rest: seq<string>, n: nat)
    requires Understands(lib, w) && Sendable(lib, w, c)
    requires HoldsAt(msgs, p, Encode(w, c) + rest, n) && n >= |Encode(w, c)|
    ensures HoldsAt(msgs, p + |Encode(w, c)|, rest, n - |Encode(w, c)|)
    ensures ParseFrom(lib, msgs, p) == Continue([c], ParseFrom(lib, msgs, p + |Encode(w, c)|))
  {
    FirstHeader(lib, w, msgs, p, c, rest, n);
    FirstBuckets(lib, w, msgs, p, c, rest, n);
  }

  lemma ParseCutFirst(lib: Library, w: Writer, msgs: seq<string>, p: nat, c: Connection, rest: seq<string>, n: nat)
    requires Understands(lib, w) && Sendable(lib, w, c) && |msgs| == p + n
    requires HoldsAt(msgs, p, Encode(w, c) + rest, n) && n < |Encode(w, c)|
    ensures ParseFrom(lib, msgs, p) == Report([], if n < 5 then None else Some(c.(buckets := [])))
  {
    if n >= 5 {
      FirstHeader(lib, w, msgs, p, c, rest, n);
    }
  }

  lemma ExpectedFirst(w: Writer, cs: seq<Connection>, n: nat)
    requires cs != [] && n >= |Encode(w, cs[0])|
    ensures Expected(w, cs, n) == Continue([cs[0]], Expected(w, cs[1..], n - |Encode(w, cs[0])|))
  {
  }

  lemma {:induction false} ParsesAsExpected(lib: Library, w: Writer, msgs: seq<string>, p: nat,
                                            cs: seq<Connection>, n: nat)
    requires Understands(lib, w) && AllSendable(lib, w, cs)
    requires HoldsAt(msgs, p, EncodeAll(w, cs), n) && |msgs| == p + n
    ensures ParseFrom(lib, msgs, p) == Expected(w, cs, n)
    decreases |cs|
  {
    if cs == [] {
      assert n == 0;
      return;
    }
    if n < |Encode(w, cs[0])| {
      ParseCutFirst(lib, w, msgs, p, cs[0], EncodeAll(w, cs[1..]), n);
      return;
    }
    ParseFirst(lib, w, msgs, p, cs[0], EncodeAll(w, cs[1..]), n);
    ExpectedFirst(w, cs, n);
    var size := |Encode(w, cs[0])|;
    ParsesAsExpected(lib, w, msgs, p + size, cs[1..], n - size);
  }

  // The bucket lists of a message that holds the first n fields of the encoding end within an int, if
  // the whole encoding does.
  lemma {:induction false} SentEndsFit(lib: Library, w: Writer, msgs: seq<string>, p: nat, cs: seq<Connection>, n: nat)
    requires Understands(lib, w) && AllSendable(lib, w, cs)
    requires HoldsAt(msgs, p, EncodeAll(w, cs), n) && |msgs| == p + n && IsInt(p + |EncodeAll(w, cs)|)
    ensures EndsFit(lib, msgs, p)
    decreases |cs|
  {
    if cs != [] && n >= 5 {
      FirstHeader(lib, w, msgs, p, cs[0], EncodeAll(w, cs[1..]), n);
      var size := |Encode(w, cs[0])|;
      if n >= size {
        FirstBuckets(lib, w, msgs, p, cs[0], EncodeAll(w, cs[1..]), n);
        SentEndsFit(lib, w, msgs, p + size, cs[1..], n - size);
      }
    }
  }

  lemma {:induction false} ExpectedWhole(w: Writer, cs: seq<Connection>)
    ensures Expected(w, cs, |EncodeAll(w, cs)|) == Report(cs, None)
  {
    if cs != [] {
      ExpectedWhole(w, cs[1..]);
    }
  }

  /** A message built from any list of connections with their buckets is read back to that list. */
  lemma MessageReadsBack(lib: Library, w: Writer, cs: seq<Connection>)
    requires Understands(lib, w) && AllSendable(lib, w, cs)
    ensures var msgs := ["astaire_connections", "OK"] + EncodeAll(w, cs);
            ParseFrom(lib, msgs, 2) == Report(cs, None) && (IsInt(|msgs|) ==> EndsFit(lib, msgs, 2))
  {
    var all := EncodeAll(w, cs);
    var msgs := ["astaire_connections", "OK"] + all;
    ParsesAsExpected(lib, w, msgs, 2, cs, |all|);
    ExpectedWhole(w, cs);
    if IsInt(|msgs|) {
      SentEndsFit(lib, w, msgs, 2, cs, |all|);
    }
  }

  lemma ContinueTwice(c: Connection, cs: seq<Connection>, r: Report)
    ensures Continue([c], Continue(cs, r)) == Continue([c] + cs, r)
  {
    assert [c] + (cs + r.complete) == [c] + cs + r.complete;
  }

  lemma FirstThenRest(lib: Library, w: Writer, msgs: seq<string>, p: nat, cs: seq<Connection>, r: Report)
    requires Understands(lib, w) && AllSendable(lib, w, cs) && cs != []
    requires HoldsAt(msgs, p, Encode(w, cs[0]) + EncodeAll(w, cs[1..]), |Encode(w, cs[0]) + EncodeAll(w, cs[1..])|)
    requires ParseFrom(lib, msgs, p + |Encode(w, cs[0])|) == Continue(cs[1..], r)
    ensures ParseFrom(lib, msgs, p) == Continue(cs, r)
  {
    var rest := EncodeAll(w, cs[1..]);
    ParseFirst(lib, w, msgs, p, cs[0], rest, |Encode(w, cs[0]) + rest|);
    ContinueTwice(cs[0], cs[1..], r);
    assert cs == [cs[0]] + cs[1..];
  }

  // Connections at field p are read, and then what follows them.
  lemma {:induction false} ConnectionsThenRest(lib: Library, w: Writer, msgs: seq<string>, p: nat,
                                               cs: seq<Connection>, r: Report)
    requires Understands(lib, w) && AllSendable(lib, w, cs)
    requires HoldsAt(msgs, p, EncodeAll(w, cs), |EncodeAll(w, cs)|)
    requires r == ParseFrom(lib, msgs, p + |EncodeAll(w, cs)|)
    ensures ParseFrom(lib, msgs, p) == Continue(cs, r)
    decreases |cs|
  {
    if cs == [] {
      assert [] + r.complete == r.complete;
    } else {
      HoldsBoth(msgs, p, Encode(w, cs[0]), EncodeAll(w, cs[1..]), |EncodeAll(w, cs)|);
      ConnectionsThenRest(lib, w, msgs, p + |Encode(w, cs[0])|, cs[1..], r);
      FirstThenRest(lib, w, msgs, p, cs, r);
    }
  }

  /** Reading stops at the first field that should be an address and is none, or at fewer than five
      fields: what comes before is published, what comes after is ignored. */
  lemma StopsAtNoAddress(lib: Library, w: Writer, cs: seq<Connection>, rest: seq<string>, msgs: seq<string>)
    requires Understands(lib, w) && AllSendable(lib, w, cs)
    requires |rest| < 5 || lib.pton(rest[0]).Unknown?
    requires msgs == ["astaire_connections", "OK"] + EncodeAll(w, cs) + rest
    ensures ParseFrom(lib, msgs, 2) == Report(cs, None)
  {
    var q := 2 + |EncodeAll(w, cs)|;
    assert |rest| >= 5 ==> msgs[q] == rest[0];
    ParseNothing(lib, msgs, q, cs);
    ConnectionsThenRest(lib, w, msgs, 2, cs, ParseFrom(lib, msgs, q));
  }

  // The first k connections are whole within the first n fields, and connection k is not.
  ghost predicate CutIn(w: Writer, cs: seq<Connection>, n: nat, k: nat) {
    && k <= |cs| && |EncodeAll(w, cs[..k])| <= n
    && (k < |cs| ==> n < |EncodeAll(w, cs[..k])| + |Encode(w, cs[k])|)
  }

  ghost function CutReport(w: Writer, cs: seq<Connection>, n: nat, k: nat): Report
    requires k <= |cs|
  {
    Report(cs[..k], if k < |cs| && |EncodeAll(w, cs[..k])| + 5 <= n then Some(cs[k].(buckets := [])) else None)
  }

  lemma CutShifts(w: Writer, cs: seq<Connection>, n: nat, k: nat)
    requires cs != [] && n >= |Encode(w, cs[0])| && CutIn(w, cs[1..], n - |Encode(w, cs[0])|, k)
    ensures CutIn(w, cs, n, k + 1)
    ensures CutReport(w, cs, n, k + 1) == Continue([cs[0]], CutReport(w, cs[1..], n - |Encode(w, cs[0])|, k))
  {
    assert cs[..k + 1][1..] == cs[1..][..k];
    assert cs[..k + 1] == [cs[0]] + cs[1..][..k];
    assert |EncodeAll(w, cs[..k + 1])| == |Encode(w, cs[0])| + |EncodeAll(w, cs[1..][..k])|;
  }

  lemma {:induction false} ExpectedCut(w: Writer, cs: seq<Connection>, n: nat) returns (k: nat)
    requires n <= |EncodeAll(w, cs)|
    ensures CutIn(w, cs, n, k) && Expected(w, cs, n) == CutReport(w, cs, n, k)
  {
    if cs == [] || n < |Encode(w, cs[0])| {
      k := 0;
    } else {
      var k' := ExpectedCut(w, cs[1..], n - |Encode(w, cs[0])|);
      k := k' + 1;
      CutShifts(w, cs, n, k');
    }
  }

  /** A message cut anywhere publishes every connection that is whole, and of the next one only the
      header counts, and those only if all five header fields are there. */
  lemma CutMessageReadsBack(lib: Library, w: Writer, cs: seq<Connection>, n: nat) returns (k: nat)
    requires Understands(lib, w) && AllSendable(lib, w, cs) && n <= |EncodeAll(w, cs)|
    ensures CutIn(w, cs, n, k)
    ensures var msgs := ["astaire_connections", "OK"] + EncodeAll(w, cs)[..n];
            && ParseFrom(lib, msgs, 2) == CutReport(w, cs, n, k)
            && (IsInt(2 + |EncodeAll(w, cs)|) ==> EndsFit(lib, msgs, 2))
  {
    var msgs := ["astaire_connections", "OK"] + EncodeAll(w, cs)[..n];
    ParsesAsExpected(lib, w, msgs, 2, cs, n);
    k := ExpectedCut(w, cs, n);
    if IsInt(2 + |EncodeAll(w, cs)|) {
      SentEndsFit(lib, w, msgs, 2, cs, n);
    }
  }

  // ---- rows ----

  // Addresses are valid and numbers are ints, as they are in everything the parser reads.
  ghost predicate Indexable(c: Connection) {
    && c.addr.IsValid() && c.addr.WellFormed() && IsInt(c.port)
    && forall b | b in c.buckets :: IsInt(b.id)
  }

  /** Row indices are injective for mixed IPv4 and IPv6 addresses: the column, address, port and
      bucket id can be read off the row's OID. */
  lemma RowsDoNotCollide(base: OID, col: nat, c: Connection, x: OID, col': nat, c': Connection, x': OID)
    requires c.addr.IsValid() && c.addr.WellFormed() && c'.addr.IsValid() && c'.addr.WellFormed()
    requires IsInt(c.port) && IsInt(c'.port)
    requires base + [col] + (ConnectionIndex(c) + x) == base + [col'] + (ConnectionIndex(c') + x')
    ensures col == col' && c.addr == c'.addr && c.port == c'.port && x == x'
  {
    var o, o' := base + [col] + (ConnectionIndex(c) + x), base + [col'] + (ConnectionIndex(c') + x');
    assert o[|base|] == col && o'[|base|] == col';
    assert o[|base| + 1..] == c.addr.ToOid() + ([SubId(c.port)] + x);
    assert o'[|base| + 1..] == c'.addr.ToOid() + ([SubId(c'.port)] + x');
    AddressIsDecodable(c.addr, [SubId(c.port)] + x, c'.addr, [SubId(c'.port)] + x');
    assert ([SubId(c.port)] + x)[0] == ([SubId(c'.port)] + x')[0];
    assert x == ([SubId(c.port)] + x)[1..] && x' == ([SubId(c'.port)] + x')[1..];
    SubIdIsInjective(c.port, c'.port);
  }

  // The five kinds of row OID.
  function NeedingRow(root: OID, c: Connection): OID { ConnectionBase(root) + [4] + ConnectionIndex(c) }
  function ResynchronizedRow(root: OID, c: Connection): OID { ConnectionBase(root) + [5] + ConnectionIndex(c) }
  function EntriesRow(root: OID, c: Connection, b: Bucket): OID { BucketBase(root) + [5] + BucketIndex(c, b) }
  function DataRow(root: OID, c: Connection, b: Bucket): OID { BucketBase(root) + [6] + BucketIndex(c, b) }
  function BandwidthRow(root: OID, c: Connection, b: Bucket): OID {
    BandwidthBase(root) + [6] + BucketIndex(c, b) + [1]
  }

  // `o` is the column `column`, then an address index, then `rest`.
  ghost predicate IndexedBy(o: OID, column: OID, addr: InetAddr, rest: OID) {
    column <= o && ReadAddress(o[|column|..]) == Some((addr, rest))
  }

  lemma IndexReadsBack(column: OID, c: Connection, x: OID, o: OID, rest: OID)
    requires c.addr.IsValid() && c.addr.WellFormed()
    requires o == column + (ConnectionIndex(c) + x) && rest == [SubId(c.port)] + x
    ensures IndexedBy(o, column, c.addr, rest)
  {
    assert o[|column|..] == c.addr.ToOid() + rest;
    AddressReadsBack(c.addr, rest);
  }

  /** The MIB's rows: a connection is indexed by address and then port, below columns 4 and 5 of table
      6.1. */
  lemma ConnectionRowsReadBack(root: OID, c: Connection)
    requires c.addr.IsValid() && c.addr.WellFormed()
    ensures IndexedBy(NeedingRow(root, c), root + [6, 1, 4], c.addr, [SubId(c.port)])
    ensures IndexedBy(ResynchronizedRow(root, c), root + [6, 1, 5], c.addr, [SubId(c.port)])
  {
    assert root + [6, 1] + [4] == root + [6, 1, 4] && root + [6, 1] + [5] == root + [6, 1, 5];
    assert ConnectionIndex(c) + [] == ConnectionIndex(c);
    IndexReadsBack(root + [6, 1, 4], c, [], NeedingRow(root, c), [SubId(c.port)]);
    IndexReadsBack(root + [6, 1, 5], c, [], ResynchronizedRow(root, c), [SubId(c.port)]);
  }

  lemma BandwidthRowIs(root: OID, c: Connection, b: Bucket)
    ensures BandwidthRow(root, c, b) == root + [8, 1, 6] + (ConnectionIndex(c) + [SubId(b.id), 1])
  {
  }

  /** A bucket by address, port and bucket id, below columns 5 and 6 of table 7.1; its bandwidth, below
      column 6 of table 8.1, has the index of the current period after that. */
  lemma BucketRowsReadBack(root: OID, c: Connection, b: Bucket)
    requires c.addr.IsValid() && c.addr.WellFormed()
    ensures IndexedBy(EntriesRow(root, c, b), root + [7, 1, 5], c.addr, [SubId(c.port), SubId(b.id)])
    ensures IndexedBy(DataRow(root, c, b), root + [7, 1, 6], c.addr, [SubId(c.port), SubId(b.id)])
    ensures IndexedBy(BandwidthRow(root, c, b), root + [8, 1, 6], c.addr, [SubId(c.port), SubId(b.id), 1])
  {
    assert root + [7, 1] + [5] == root + [7, 1, 5] && root + [7, 1] + [6] == root + [7, 1, 6];
    BandwidthRowIs(root, c, b);
    IndexReadsBack(root + [7, 1, 5], c, [SubId(b.id)], EntriesRow(root, c, b), [SubId(c.port), SubId(b.id)]);
    IndexReadsBack(root + [7, 1, 6], c, [SubId(b.id)], DataRow(root, c, b), [SubId(c.port), SubId(b.id)]);
    IndexReadsBack(root + [8, 1, 6], c, [SubId(b.id), 1], BandwidthRow(root, c, b), [SubId(c.port), SubId(b.id), 1]);
  }

  ghost predicate SameConnection(c: Connection, c': Connection) {
    c.addr == c'.addr && c.port == c'.port
  }

  lemma ConnectionRowsDiffer(root: OID, c: Connection, c': Connection)
    requires Indexable(c) && Indexable(c')
    ensures NeedingRow(root, c) != ResynchronizedRow(root, c')
    ensures NeedingRow(root, c) == NeedingRow(root, c') || ResynchronizedRow(root, c) == ResynchronizedRow(root, c') ==>
              SameConnection(c, c')
  {
    var base := ConnectionBase(root);
    assert ConnectionIndex(c) + [] == ConnectionIndex(c) && ConnectionIndex(c') + [] == ConnectionIndex(c');
    if NeedingRow(root, c) == ResynchronizedRow(root, c') {
      RowsDoNotCollide(base, 4, c, [], 5, c', []);
    }
    if NeedingRow(root, c) == NeedingRow(root, c') {
      RowsDoNotCollide(base, 4, c, [], 4, c', []);
    }
    if ResynchronizedRow(root, c) == ResynchronizedRow(root, c') {
      RowsDoNotCollide(base, 5, c, [], 5, c', []);
    }
  }

  lemma SameIds(b: Bucket, b': Bucket)
    requires IsInt(b.id) && IsInt(b'.id)
    requires [SubId(b.id)] == [SubId(b'.id)]
    ensures b.id == b'.id
  {
    assert [SubId(b.id)][0] == [SubId(b'.id)][0];
    SubIdIsInjective(b.id, b'.id);
  }

  lemma BucketRowsDiffer(root: OID, c: Connection, b: Bucket, c': Connection, b': Bucket)
    requires Indexable(c) && Indexable(c')
    requires IsInt(b.id) && IsInt(b'.id)
    ensures EntriesRow(root, c, b) != DataRow(root, c', b')
    ensures (|| EntriesRow(root, c, b) == EntriesRow(root, c', b') || DataRow(root, c, b) == DataRow(root, c', b')
             || BandwidthRow(root, c, b) == BandwidthRow(root, c', b')) ==> SameConnection(c, c') && b.id == b'.id
  {
    var x, x' := [SubId(b.id)], [SubId(b'.id)];
    if EntriesRow(root, c, b) == DataRow(root, c', b') {
      RowsDoNotCollide(BucketBase(root), 5, c, x, 6, c', x');
    }
    if EntriesRow(root, c, b) == EntriesRow(root, c', b') {
      RowsDoNotCollide(BucketBase(root), 5, c, x, 5, c', x');
      SameIds(b, b');
    }
    if DataRow(root, c, b) == DataRow(root, c', b') {
      RowsDoNotCollide(BucketBase(root), 6, c, x, 6, c', x');
      SameIds(b, b');
    }
    if BandwidthRow(root, c, b) == BandwidthRow(root, c', b') {
      var o, o' := BandwidthRow(root, c, b), BandwidthRow(root, c', b');
      assert Front(o) == BandwidthBase(root) + [6] + (ConnectionIndex(c) + x);
      assert Front(o') == BandwidthBase(root) + [6] + (ConnectionIndex(c') + x');
      RowsDoNotCollide(BandwidthBase(root), 6, c, x, 6, c', x');
      SameIds(b, b');
    }
  }

  // ---- no row is lost ----

  ghost predicate ShowsConnection(root: OID, t: Tables, c: Connection) {
    && Get(t.connections, NeedingRow(root, c)) == Some(c.needingResync)
    && Get(t.connections, ResynchronizedRow(root, c)) == Some(c.resynchronized)
  }

  ghost predicate ShowsBucket(root: OID, t: Tables, c: Connection, b: Bucket) {
    && Get(t.buckets, EntriesRow(root, c, b)) == Some(b.entries)
    && Get(t.buckets, DataRow(root, c, b)) == Some(b.data)
    && Get(t.bandwidths, BandwidthRow(root, c, b)) == Some(b.bandwidth)
  }

  // Connections differ in address or port, and each one's buckets in their ids.
  ghost predicate AllDiffer(cs: seq<Connection>) {
    && (forall m, n | 0 <= m < n < |cs| :: !SameConnection(cs[m], cs[n]))
    && (forall n, i, j | 0 <= n < |cs| && 0 <= i < j < |cs[n].buckets| :: cs[n].buckets[i].id != cs[n].buckets[j].id)
  }

  ghost predicate AllIndexable(cs: seq<Connection>) {
    forall n | 0 <= n < |cs| :: Indexable(cs[n])
  }

  // Connection n is the last with its address and port.
  ghost predicate LastConnection(cs: seq<Connection>, n: nat)
    requires n < |cs|
  {
    forall k | n < k < |cs| :: !SameConnection(cs[k], cs[n])
  }

  // Bucket j of connection n is the last with its id, within that connection and among later ones with
  // the same address and port.
  ghost predicate LastBucket(cs: seq<Connection>, n: nat, j: nat)
    requires n < |cs| && j < |cs[n].buckets|
  {
    && (forall k | j < k < |cs[n].buckets| :: cs[n].buckets[k].id != cs[n].buckets[j].id)
    && (forall k, b | n < k < |cs| && b in cs[k].buckets ::
          !(SameConnection(cs[k], cs[n]) && b.id == cs[n].buckets[j].id))
  }

  lemma AddConnectionShows(root: OID, t: Tables, c: Connection, c': Connection)
    requires Indexable(c) && Indexable(c')
    ensures ShowsConnection(root, AddConnection(root, t, c), c)
    ensures !SameConnection(c, c') && ShowsConnection(root, t, c') ==>
              ShowsConnection(root, AddConnection(root, t, c), c')
  {
    ConnectionRowsDiffer(root, c, c);
    ConnectionRowsDiffer(root, c, c');
    ConnectionRowsDiffer(root, c', c);
  }

  lemma AddBucketShows(root: OID, t: Tables, c: Connection, b: Bucket, c': Connection, b': Bucket)
    requires Indexable(c) && Indexable(c')
    requires IsInt(b.id) && IsInt(b'.id)
    ensures ShowsBucket(root, AddBucket(root, t, c, b), c, b)
    ensures !(SameConnection(c, c') && b.id == b'.id) && ShowsBucket(root, t, c', b') ==>
              ShowsBucket(root, AddBucket(root, t, c, b), c', b')
  {
    BucketRowsDiffer(root, c, b, c, b);
    BucketRowsDiffer(root, c, b, c', b');
    BucketRowsDiffer(root, c', b', c, b);
  }

  lemma {:induction false} AddBucketsKeepsConnections(root: OID, t: Tables, c: Connection, bs: seq<Bucket>)
    ensures AddBuckets(root, t, c, bs).connections == t.connections
  {
    if bs != [] {
      AddBucketsKeepsConnections(root, t, c, Front(bs));
    }
  }

  // After adding buckets with ids different from b', a row of bucket b' of connection c' is still there.
  lemma {:induction false} AddBucketsKeeps(root: OID, t: Tables, c: Connection, bs: seq<Bucket>,
                                           c': Connection, b': Bucket)
    requires Indexable(c) && Indexable(c') && IsInt(b'.id)
    requires forall b | b in bs :: IsInt(b.id) && !(SameConnection(c, c') && b.id == b'.id)
    requires ShowsBucket(root, t, c', b')
    ensures ShowsBucket(root, AddBuckets(root, t, c, bs), c', b')
  {
    if bs != [] {
      assert Last(bs) in bs && forall b | b in Front(bs) :: b in bs;
      AddBucketsKeeps(root, t, c, Front(bs), c', b');
      AddBucketShows(root, AddBuckets(root, t, c, Front(bs)), c, Last(bs), c', b');
    }
  }

  lemma {:induction false} AddBucketsShows(root: OID, t: Tables, c: Connection, bs: seq<Bucket>, j: nat)
    requires Indexable(c) && (forall b | b in bs :: IsInt(b.id))
    requires j < |bs| && forall k | j < k < |bs| :: bs[k].id != bs[j].id
    ensures ShowsBucket(root, AddBuckets(root, t, c, bs), c, bs[j])
  {
    var front, last := Front(bs), Last(bs);
    assert last in bs && bs[j] in bs && forall b | b in front :: b in bs;
    AddBucketShows(root, AddBuckets(root, t, c, front), c, last, c, bs[j]);
    if j < |front| {
      assert front[j] == bs[j];
      AddBucketsShows(root, t, c, front, j);
    }
  }

  /** Of the connections with one address and port, the last prevails. */
  lemma {:induction false} LastConnectionPrevails(root: OID, cs: seq<Connection>, n: nat)
    requires AllIndexable(cs) && n < |cs| && LastConnection(cs, n)
    ensures ShowsConnection(root, TablesOf(root, cs), cs[n])
    decreases |cs|
  {
    var front, last := Front(cs), Last(cs);
    var t := TablesOf(root, front);
    AddBucketsKeepsConnections(root, AddConnection(root, t, last), last, last.buckets);
    AddConnectionShows(root, t, last, cs[n]);
    if n < |front| {
      assert front[n] == cs[n] && !SameConnection(last, cs[n]);
      LastConnectionPrevails(root, front, n);
    }
  }

  /** And of the buckets with one id under them, the last. */
  lemma {:induction false} LastBucketPrevails(root: OID, cs: seq<Connection>, n: nat, j: nat)
    requires AllIndexable(cs) && n < |cs| && j < |cs[n].buckets| && LastBucket(cs, n, j)
    ensures ShowsBucket(root, TablesOf(root, cs), cs[n], cs[n].buckets[j])
    decreases |cs|
  {
    var front, last := Front(cs), Last(cs);
    var t := AddConnection(root, TablesOf(root, front), last);
    if n == |front| {
      AddBucketsShows(root, t, last, last.buckets, j);
    } else {
      assert front[n] == cs[n] && cs[|front|] == last && cs[n].buckets[j] in cs[n].buckets;
      LastBucketPrevails(root, front, n, j);
      AddBucketsKeeps(root, t, last, last.buckets, cs[n], cs[n].buckets[j]);
    }
  }

  /** So when connections differ in address or port and buckets of one connection in their ids, every
      row of every connection and bucket is in the tables with its value: none overwrites another. */
  lemma NoRowIsLost(root: OID, cs: seq<Connection>, n: nat)
    requires AllIndexable(cs) && AllDiffer(cs) && n < |cs|
    ensures ShowsConnection(root, TablesOf(root, cs), cs[n])
    ensures forall j | 0 <= j < |cs[n].buckets| :: ShowsBucket(root, TablesOf(root, cs), cs[n], cs[n].buckets[j])
  {
    assert LastConnection(cs, n);
    LastConnectionPrevails(root, cs, n);
    forall j | 0 <= j < |cs[n].buckets|
      ensures ShowsBucket(root, TablesOf(root, cs), cs[n], cs[n].buckets[j])
    {
      LastBucketPrevails(root, cs, n, j);
    }
  }

  // ---- and there are no other rows ----

  ghost predicate IsConnectionRow(root: OID, cs: seq<Connection>, k: OID) {
    exists n :: 0 <= n < |cs| && (k == NeedingRow(root, cs[n]) || k == ResynchronizedRow(root, cs[n]))
  }

  ghost predicate IsBucketRow(root: OID, cs: seq<Connection>, k: OID) {
    exists n, b :: 0 <= n < |cs| && b in cs[n].buckets
                   && (k == EntriesRow(root, cs[n], b) || k == DataRow(root, cs[n], b))
  }

  ghost predicate IsBandwidthRow(root: OID, cs: seq<Connection>, k: OID) {
    exists n, b :: 0 <= n < |cs| && b in cs[n].buckets && k == BandwidthRow(root, cs[n], b)
  }

  lemma {:induction false} AddBucketsAdds(root: OID, t: Tables, c: Connection, bs: seq<Bucket>, k: OID)
    ensures k in AddBuckets(root, t, c, bs).buckets ==>
              k in t.buckets || exists b :: b in bs && (k == EntriesRow(root, c, b) || k == DataRow(root, c, b))
    ensures k in AddBuckets(root, t, c, bs).bandwidths ==>
              k in t.bandwidths || exists b :: b in bs && k == BandwidthRow(root, c, b)
  {
    if bs != [] {
      AddBucketsAdds(root, t, c, Front(bs), k);
      assert Last(bs) in bs && forall b | b in Front(bs) :: b in bs;
    }
  }

  /** Every row of the tables is a row of one of the connections. */
  lemma {:induction false} OnlyTheirRows(root: OID, cs: seq<Connection>, k: OID)
    ensures k in TablesOf(root, cs).connections ==> IsConnectionRow(root, cs, k)
    ensures k in TablesOf(root, cs).buckets ==> IsBucketRow(root, cs, k)
    ensures k in TablesOf(root, cs).bandwidths ==> IsBandwidthRow(root, cs, k)
  {
    if cs != [] {
      var front, last := Front(cs), Last(cs);
      assert cs[|front|] == last && forall n | 0 <= n < |front| :: front[n] == cs[n];
      var t := AddConnection(root, TablesOf(root, front), last);
      OnlyTheirRows(root, front, k);
      AddBucketsKeepsConnections(root, t, last, last.buckets);
      AddBucketsAdds(root, t, last, last.buckets, k);
    }
  }

  lemma {:induction false} AddBucketsKeepsRows(root: OID, t: Tables, c: Connection, bs: seq<Bucket>)
    ensures t.buckets.Keys <= AddBuckets(root, t, c, bs).buckets.Keys
    ensures t.bandwidths.Keys <= AddBuckets(root, t, c, bs).bandwidths.Keys
    ensures forall b | b in bs :: && EntriesRow(root, c, b) in AddBuckets(root, t, c, bs).buckets
                                  && DataRow(root, c, b) in AddBuckets(root, t, c, bs).buckets
                                  && BandwidthRow(root, c, b) in AddBuckets(root, t, c, bs).bandwidths
  {
    if bs != [] {
      AddBucketsKeepsRows(root, t, c, Front(bs));
      assert forall b | b in bs :: b in Front(bs) || b == Last(bs);
    }
  }

  // A connection's rows are in the tables, with whatever value.
  lemma {:induction false} RowsOfConnectionStay(root: OID, cs: seq<Connection>, n: nat)
    requires n < |cs|
    ensures NeedingRow(root, cs[n]) in TablesOf(root, cs).connections
    ensures ResynchronizedRow(root, cs[n]) in TablesOf(root, cs).connections
    ensures forall b | b in cs[n].buckets :: && EntriesRow(root, cs[n], b) in TablesOf(root, cs).buckets
                                             && DataRow(root, cs[n], b) in TablesOf(root, cs).buckets
                                             && BandwidthRow(root, cs[n], b) in TablesOf(root, cs).bandwidths
    decreases |cs|
  {
    var front, last := Front(cs), Last(cs);
    var t := AddConnection(root, TablesOf(root, front), last);
    AddBucketsKeepsConnections(root, t, last, last.buckets);
    AddBucketsKeepsRows(root, t, last, last.buckets);
    if n < |front| {
      assert front[n] == cs[n];
      RowsOfConnectionStay(root, front, n);
    }
  }

  /** And every row of a connection is a row of the tables. */
  lemma RowsOfTables(root: OID, cs: seq<Connection>, k: OID)
    ensures k in TablesOf(root, cs).connections <==> IsConnectionRow(root, cs, k)
    ensures k in TablesOf(root, cs).buckets <==> IsBucketRow(root, cs, k)
    ensures k in TablesOf(root, cs).bandwidths <==> IsBandwidthRow(root, cs, k)
  {
    OnlyTheirRows(root, cs, k);
    if IsConnectionRow(root, cs, k) {
      var n :| 0 <= n < |cs| && (k == NeedingRow(root, cs[n]) || k == ResynchronizedRow(root, cs[n]));
      RowsOfConnectionStay(root, cs, n);
    }
    if IsBucketRow(root, cs, k) {
      var n, b :| 0 <= n < |cs| && b in cs[n].buckets
                  && (k == EntriesRow(root, cs[n], b) || k == DataRow(root, cs[n], b));
      RowsOfConnectionStay(root, cs, n);
    }
    if IsBandwidthRow(root, cs, k) {
      var n, b :| 0 <= n < |cs| && b in cs[n].buckets && k == BandwidthRow(root, cs[n], b);
      RowsOfConnectionStay(root, cs, n);
    }
  }

  lemma TablesStayUnderTheirBases(root: OID, cs: seq<Connection>)
    ensures KeysUnder(ConnectionBase(root), TablesOf(root, cs).connections)
    ensures KeysUnder(BucketBase(root), TablesOf(root, cs).buckets)
    ensures KeysUnder(BandwidthBase(root), TablesOf(root, cs).bandwidths)
  {
    forall k
      ensures k in TablesOf(root, cs).connections ==> ConnectionBase(root) <= k
      ensures k in TablesOf(root, cs).buckets ==> BucketBase(root) <= k
      ensures k in TablesOf(root, cs).bandwidths ==> BandwidthBase(root) <= k
    {
      OnlyTheirRows(root, cs, k);
    }
  }
}
