/** The Astaire connection statistics: a nested, length-driven message parser that fills three
    tables (src/astairedata.cpp). */
module Astaire {
  import opened Common
  import opened Oids
  import opened OidTree

  datatype Bucket = Bucket(id: int, entries: int, data: int, bandwidth: int)

  datatype Connection = Connection(addr: InetAddr, port: int, needingResync: int, resynchronized: int,
                                   buckets: seq<Bucket>)

  /** What a message says: the connections read in full and, if the message ends inside a bucket
      list, the header of that connection (its buckets are not read at all). */
  datatype Report = Report(complete: seq<Connection>, cut: Option<Connection>)

  // A report whose first connections are `done`.
  function Continue(done: seq<Connection>, r: Report): Report {
    Report(done + r.complete, r.cut)
  }

  // ---- the message as a list of connections ----

  function BucketAt(lib: Library, msgs: seq<string>, p: nat): Bucket
    requires p + 4 <= |msgs|
  {
    Bucket(lib.atoi(msgs[p]), lib.atoi(msgs[p + 1]), lib.atoi(msgs[p + 2]), lib.atoi(msgs[p + 3]))
  }

  function BucketsAt(lib: Library, msgs: seq<string>, p: nat, n: nat): seq<Bucket>
    requires p + 4 * n <= |msgs|
  {
    if n == 0 then [] else BucketsAt(lib, msgs, p, n - 1) + [BucketAt(lib, msgs, p + 4 * (n - 1))]
  }

  function HeaderAt(lib: Library, msgs: seq<string>, p: nat): Connection
    requires p + 5 <= |msgs|
  {
    Connection(lib.pton(msgs[p]), lib.atoi(msgs[p + 1]), lib.atoi(msgs[p + 2]), lib.atoi(msgs[p + 3]), [])
  }

  // The number of buckets a count field stands for; a negative one stands for none.
  function Count(n: int): nat {
    if n < 0 then 0 else n
  }

  // No connection can be read at field p: its header is not there or its address is invalid.
  predicate NothingAt(lib: Library, msgs: seq<string>, p: nat) {
    |msgs| < p + 5 || lib.pton(msgs[p]).Unknown?
  }

  // Where the bucket list of the connection at field p ends.
  function EndAt(lib: Library, msgs: seq<string>, p: nat): nat
    requires p + 5 <= |msgs|
  {
    p + 5 + 4 * Count(lib.atoi(msgs[p + 4]))
  }

  function ConnectionAt(lib: Library, msgs: seq<string>, p: nat): Connection
    requires p + 5 <= |msgs| && EndAt(lib, msgs, p) <= |msgs|
  {
    HeaderAt(lib, msgs, p).(buckets := BucketsAt(lib, msgs, p + 5, Count(lib.atoi(msgs[p + 4]))))
  }

  /** The message from field p on, read as connections until the fields run out, an address is
      invalid or a bucket list is too short. */
  function ParseFrom(lib: Library, msgs: seq<string>, p: nat): Report
    requires p <= |msgs|
    decreases |msgs| - p
  {
    if NothingAt(lib, msgs, p) then Report([], None)
    else if |msgs| < EndAt(lib, msgs, p) then Report([], Some(HeaderAt(lib, msgs, p)))
    else Continue([ConnectionAt(lib, msgs, p)], ParseFrom(lib, msgs, EndAt(lib, msgs, p)))
  }

  // The end of the bucket list, as the source computes it, is an int.
  predicate EndFits(lib: Library, msgs: seq<string>, p: nat)
    requires p + 5 <= |msgs|
  {
    IsInt(lib.atoi(msgs[p + 4]) * 4) && IsInt(p + 5 + lib.atoi(msgs[p + 4]) * 4)
  }

  /** So is the end of every bucket list that is reached from field p on; otherwise the source's
      arithmetic overflows and what it does is undefined. */
  predicate EndsFit(lib: Library, msgs: seq<string>, p: nat)
    requires p <= |msgs|
    decreases |msgs| - p
  {
    NothingAt(lib, msgs, p) ||
    (EndFits(lib, msgs, p) && (EndAt(lib, msgs, p) <= |msgs| ==> EndsFit(lib, msgs, EndAt(lib, msgs, p))))
  }

  // ---- the rows a list of connections publishes ----

  function ConnectionIndex(c: Connection): OID {
    c.addr.ToOid() + [SubId(c.port)]
  }

  function BucketIndex(c: Connection, b: Bucket): OID {
    ConnectionIndex(c) + [SubId(b.id)]
  }

  /** The three tables of the MIB, as the maps that replace them. */
  datatype Tables = Tables(connections: OidMap, buckets: OidMap, bandwidths: OidMap)

  function ConnectionBase(root: OID): OID { root + [6, 1] }
  function BucketBase(root: OID): OID { root + [7, 1] }
  function BandwidthBase(root: OID): OID { root + [8, 1] }

  function AddConnection(root: OID, t: Tables, c: Connection): Tables {
    t.(connections := t.connections[ConnectionBase(root) + [4] + ConnectionIndex(c) := c.needingResync]
                                   [ConnectionBase(root) + [5] + ConnectionIndex(c) := c.resynchronized])
  }

  function AddBucket(root: OID, t: Tables, c: Connection, b: Bucket): Tables {
    t.(buckets := t.buckets[BucketBase(root) + [5] + BucketIndex(c, b) := b.entries]
                           [BucketBase(root) + [6] + BucketIndex(c, b) := b.data],
       bandwidths := t.bandwidths[BandwidthBase(root) + [6] + BucketIndex(c, b) + [1] := b.bandwidth])
  }

  function AddBuckets(root: OID, t: Tables, c: Connection, bs: seq<Bucket>): Tables {
    if bs == [] then t else AddBucket(root, AddBuckets(root, t, c, Front(bs)), c, Last(bs))
  }

  function TablesOf(root: OID, cs: seq<Connection>): Tables {
    if cs == [] then Tables(map[], map[], map[])
    else AddBuckets(root, AddConnection(root, TablesOf(root, Front(cs)), Last(cs)), Last(cs), Last(cs).buckets)
  }

  function Published(root: OID, r: Report): Tables {
    TablesOf(root, r.complete + (if r.cut.Some? then [r.cut.value] else []))
  }

  lemma AddBucketsSnoc(root: OID, t: Tables, c: Connection, bs: seq<Bucket>, b: Bucket)
    ensures AddBuckets(root, t, c, bs + [b]) == AddBucket(root, AddBuckets(root, t, c, bs), c, b)
  {
    assert Front(bs + [b]) == bs;
  }

  lemma {:induction false} IndexIgnoresBuckets(root: OID, t: Tables, c: Connection, c': Connection, bs: seq<Bucket>)
    requires c' == c.(buckets := c'.buckets)
    ensures AddConnection(root, t, c) == AddConnection(root, t, c')
    ensures AddBuckets(root, t, c, bs) == AddBuckets(root, t, c', bs)
  {
    if bs != [] {
      IndexIgnoresBuckets(root, t, c, c', Front(bs));
    }
  }

  // Adding a connection's header and then its buckets is adding the connection.
  lemma TablesSnoc(root: OID, cs: seq<Connection>, c: Connection, bs: seq<Bucket>)
    ensures TablesOf(root, cs + [c.(buckets := bs)])
            == AddBuckets(root, AddConnection(root, TablesOf(root, cs), c), c, bs)
  {
    var full := c.(buckets := bs);
    assert Front(cs + [full]) == cs && Last(cs + [full]) == full;
    IndexIgnoresBuckets(root, TablesOf(root, cs), c, full, []);
    IndexIgnoresBuckets(root, AddConnection(root, TablesOf(root, cs), c), c, full, bs);
  }

  // What the parser meets at field p: no connection to read, one whose buckets are cut, or one it
  // moves from what is left to what is done.
  lemma ParseNothing(lib: Library, msgs: seq<string>, p: nat, done: seq<Connection>)
    requires p <= |msgs| && NothingAt(lib, msgs, p)
    ensures Continue(done, ParseFrom(lib, msgs, p)) == Report(done, None)
  {
    assert done + [] == done;
  }

  lemma ParseCut(lib: Library, msgs: seq<string>, p: nat, done: seq<Connection>)
    requires p <= |msgs| && !NothingAt(lib, msgs, p) && |msgs| < EndAt(lib, msgs, p)
    ensures Continue(done, ParseFrom(lib, msgs, p)) == Report(done, Some(HeaderAt(lib, msgs, p)))
  {
    assert done + [] == done;
  }

  lemma ParseOne(lib: Library, msgs: seq<string>, p: nat, done: seq<Connection>)
    requires p <= |msgs| && !NothingAt(lib, msgs, p) && EndAt(lib, msgs, p) <= |msgs|
    ensures Continue(done, ParseFrom(lib, msgs, p))
            == Continue(done + [ConnectionAt(lib, msgs, p)], ParseFrom(lib, msgs, EndAt(lib, msgs, p)))
  {
    var c, rest := ConnectionAt(lib, msgs, p), ParseFrom(lib, msgs, EndAt(lib, msgs, p)).complete;
    assert done + ([c] + rest) == done + [c] + rest;
  }

  lemma PublishedWhole(root: OID, done: seq<Connection>)
    ensures Published(root, Report(done, None)) == TablesOf(root, done)
  {
    assert done + [] == done;
  }

  lemma PublishedCut(root: OID, done: seq<Connection>, c: Connection)
    requires c.buckets == []
    ensures Published(root, Report(done, Some(c))) == AddConnection(root, TablesOf(root, done), c)
  {
    TablesSnoc(root, done, c, []);
    assert c.(buckets := []) == c;
  }

  /** The inner loop of handle: reads the n buckets of connection c that start at field `start`. */
  method ReadBuckets(lib: Library, msgs: seq<string>, start: nat, n: int, root: OID, t: Tables, c: Connection)
    returns (ii: nat, t': Tables)
    requires start <= |msgs| && start + n * 4 <= |msgs|
    ensures ii == start + 4 * Count(n) <= |msgs|
    ensures t' == AddBuckets(root, t, c, BucketsAt(lib, msgs, start, Count(n)))
  {
    ii, t' := start, t;
    var endBuckets := start + n * 4;
    ghost var k: nat := 0;
    while ii < endBuckets
      invariant ii == start + 4 * k && k <= Count(n)
      invariant t' == AddBuckets(root, t, c, BucketsAt(lib, msgs, start, k))
    {
      var b := BucketAt(lib, msgs, ii);
      AddBucketsSnoc(root, t, c, BucketsAt(lib, msgs, start, k), b);
      t' := AddBucket(root, t', c, b);
      ii := ii + 4;
      k := k + 1;
    }
  }

  // The body of the outer loop, for a connection whose header is there and whose address is valid.
  method ReadConnection(lib: Library, msgs: seq<string>, ii: nat, root: OID, t: Tables, ghost done: seq<Connection>)
    returns (ii': nat, t': Tables, cut: bool)
    requires ii <= |msgs| && !NothingAt(lib, msgs, ii) && EndFits(lib, msgs, ii) && t == TablesOf(root, done)
    ensures cut <==> |msgs| < EndAt(lib, msgs, ii)
    ensures cut ==> t' == Published(root, Report(done, Some(HeaderAt(lib, msgs, ii))))
    ensures !cut ==> ii' == EndAt(lib, msgs, ii) && t' == TablesOf(root, done + [ConnectionAt(lib, msgs, ii)])
  {
    var c := HeaderAt(lib, msgs, ii);
    var n := lib.atoi(msgs[ii + 4]);
    ii', t' := ii + 5, AddConnection(root, t, c);
    cut := |msgs| < ii' + n * 4;
    if cut {
      PublishedCut(root, done, c);
    } else {
      ii', t' := ReadBuckets(lib, msgs, ii + 5, n, root, t', c);
      TablesSnoc(root, done, c, BucketsAt(lib, msgs, ii + 5, Count(n)));
    }
  }

  /** The outer loop of handle. Every field it reads exists, it ends on every message, and the tables
      it fills are exactly those of the message's report. */
  method ParseMessage(lib: Library, msgs: seq<string>, root: OID) returns (t: Tables)
    requires |msgs| >= 2 && EndsFit(lib, msgs, 2)
    ensures t == Published(root, ParseFrom(lib, msgs, 2))
  {
    t := Tables(map[], map[], map[]);
    var ii := 2;
    ghost var whole := ParseFrom(lib, msgs, 2);
    ghost var done: seq<Connection> := [];
    assert [] + whole.complete == whole.complete;
    while ii < |msgs|
      invariant 2 <= ii <= |msgs| && EndsFit(lib, msgs, ii)
      invariant t == TablesOf(root, done)
      invariant whole == Continue(done, ParseFrom(lib, msgs, ii))
      decreases |msgs| - ii
    {
      if NothingAt(lib, msgs, ii) {
        break;
      }
      ghost var start := ii;
      var cut;
      ii, t, cut := ReadConnection(lib, msgs, ii, root, t, done);
      if cut {
        ParseCut(lib, msgs, start, done);
        return;
      }
      ParseOne(lib, msgs, start, done);
      done := done + [ConnectionAt(lib, msgs, start)];
    }
    ParseNothing(lib, msgs, ii, done);
    PublishedWhole(root, done);
  }
}
