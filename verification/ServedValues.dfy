/** What GET answers after a message of each handler, whatever the other handlers receive before and
    after it (src/zmq_message_handler.cpp, src/astairedata.cpp). Values are told by their meaning in the
    message and by their OID in the MIB. */
module ServedValues {
  import opened Common
  import opened Oids
  import opened OidTree
  import opened AstaireMessages
  import opened StatHandlers

  // The message is a name, a status, and then `values` in this order; more may follow.
  ghost predicate Carries(w: Writer, fields: seq<string>, values: seq<int>) {
    && 2 + |values| <= |fields|
    && forall k | 0 <= k < |values| :: Printable(values[k]) && fields[2 + k] == w.show(values[k])
  }

  lemma CarriedReadsBack(lib: Library, w: Writer, fields: seq<string>, values: seq<int>)
    requires Understands(lib, w) && Carries(w, fields, values)
    ensures forall k | 0 <= k < |values| :: lib.atoi(fields[2 + k]) == values[k]
  {
    forall k | 0 <= k < |values|
      ensures lib.atoi(fields[2 + k]) == values[k]
    {
      NumberReadsBack(lib, w, values[k]);
    }
  }

  // No message after n writes under the slots of message n's handler.
  ghost predicate LastOfItsSlots(ms: seq<Message>, n: nat) {
    && n < |ms|
    && forall k, s | n < k < |ms| && s in SlotsOf(ms[n].handler) :: s !in SlotsOf(ms[k].handler)
  }

  function StoreOf(lib: Library, ms: seq<Message>): OidMap
    requires forall k | 0 <= k < |ms| :: |ms[k].fields| >= 2
  {
    ApplyAll(map[], AllWrites(lib, ms))
  }

  // Message n is the last of handler h in a run of compatible handlers.
  ghost predicate LastMessage(lib: Library, hs: set<Handler>, ms: seq<Message>, n: nat, h: Handler) {
    Antichain(AllSlots(hs)) && Acceptable(lib, hs, ms) && LastOfItsSlots(ms, n) && ms[n].handler == h
  }

  lemma LatestOfLast(lib: Library, ms: seq<Message>, n: nat, slot: OID)
    requires (forall k | 0 <= k < |ms| :: |ms[k].fields| >= 2) && n < |ms|
    requires forall k | n < k < |ms| :: slot !in SlotsOf(ms[k].handler)
    ensures Latest(AllWrites(lib, ms), slot)
            == Latest(AllWrites(lib, ms[..n]) + WritesOf(lib, ms[n].handler, ms[n].fields), slot)
  {
    var upTo := AllWrites(lib, ms[..n]) + WritesOf(lib, ms[n].handler, ms[n].fields);
    WritesAround(lib, ms, n);
    WritesElsewhere(lib, ms[n + 1..], slot);
    LatestIgnores(upTo, AllWrites(lib, ms[n + 1..]), slot);
  }

  // Under its slots the store is as the last message left it.
  lemma SlotAfterLast(lib: Library, hs: set<Handler>, ms: seq<Message>, n: nat, h: Handler, slot: OID)
    requires LastMessage(lib, hs, ms, n, h) && slot in SlotsOf(h)
    ensures Slice(StoreOf(lib, ms), slot)
            == Latest(AllWrites(lib, ms[..n]) + WritesOf(lib, h, ms[n].fields), slot)
  {
    StoreShowsEachHandlersData(lib, hs, ms);
    assert h in hs && slot in AllSlots(hs);
    LatestOfLast(lib, ms, n, slot);
  }

  // The last of the writes `ws` that goes to a slot decides what that slot shows.
  lemma LastWriteDecides(before: seq<Write>, ws: seq<Write>, j: nat)
    requires j < |ws| && forall k | j < k < |ws| :: ws[k].slot != ws[j].slot
    ensures ws[j].Replace? ==> Latest(before + ws, ws[j].slot) == ws[j].update
    ensures ws[j].Set? ==> Get(Latest(before + ws, ws[j].slot), ws[j].slot) == Some(ws[j].value)
    ensures ws[j].Remove? ==> Get(Latest(before + ws, ws[j].slot), ws[j].slot) == None
  {
    var upTo := before + ws[..j] + [ws[j]];
    assert before + ws == upTo + ws[j + 1..];
    LatestIgnores(upTo, ws[j + 1..], ws[j].slot);
    assert Front(upTo) == before + ws[..j] && Last(upTo) == ws[j];
  }

  // A handler that makes one replacement.
  lemma OneReplacement(lib: Library, hs: set<Handler>, ms: seq<Message>, n: nat, h: Handler, update: OidMap)
    requires LastMessage(lib, hs, ms, n, h) && SlotsOf(h) == [h.root]
    requires WritesOf(lib, h, ms[n].fields) == [Replace(h.root, update)]
    ensures Slice(StoreOf(lib, ms), h.root) == update
  {
    assert SlotsOf(h)[0] == h.root;
    SlotAfterLast(lib, hs, ms, n, h, h.root);
    LastWriteDecides(AllWrites(lib, ms[..n]), WritesOf(lib, h, ms[n].fields), 0);
  }

  // ---- single values ----

  /** A bare statistic is served at its root itself. */
  lemma BareIsServed(lib: Library, w: Writer, hs: set<Handler>, ms: seq<Message>, n: nat, root: OID, value: int)
    requires LastMessage(lib, hs, ms, n, Bare(root)) && Understands(lib, w) && Carries(w, ms[n].fields, [value])
    ensures Get(StoreOf(lib, ms), root) == Some(value)
  {
    CarriedReadsBack(lib, w, ms[n].fields, [value]);
    assert lib.atoi(ms[n].fields[2 + 0]) == [value][0];
    assert SlotsOf(Bare(root))[0] == root;
    SlotAfterLast(lib, hs, ms, n, Bare(root), root);
    LastWriteDecides(AllWrites(lib, ms[..n]), [Set(root, value)], 0);
    SliceAt(StoreOf(lib, ms), root, root);
  }

  /** A bare statistic without a value leaves what was served before. */
  lemma ShortBareIsIgnored(lib: Library, hs: set<Handler>, ms: seq<Message>, n: nat, root: OID)
    requires LastMessage(lib, hs, ms, n, Bare(root)) && |ms[n].fields| < 3
    ensures Slice(StoreOf(lib, ms), root) == Slice(StoreOf(lib, ms[..n]), root)
  {
    assert SlotsOf(Bare(root))[0] == root && Bare(root) in hs;
    SlotAfterLast(lib, hs, ms, n, Bare(root), root);
    StoreShowsEachHandlersData(lib, hs, ms[..n]);
    assert AllWrites(lib, ms[..n]) + [] == AllWrites(lib, ms[..n]);
  }

  /** A scalar is served at instance 0 of its root, and nothing else below the root. */
  lemma SingleNumberIsServed(lib: Library, w: Writer, hs: set<Handler>, ms: seq<Message>, n: nat, root: OID, value: int)
    requires LastMessage(lib, hs, ms, n, SingleNumber(root))
    requires Understands(lib, w) && Carries(w, ms[n].fields, [value])
    ensures Slice(StoreOf(lib, ms), root) == map[root + [0] := value]
  {
    CarriedReadsBack(lib, w, ms[n].fields, [value]);
    assert lib.atoi(ms[n].fields[2 + 0]) == [value][0];
    OneReplacement(lib, hs, ms, n, SingleNumber(root), map[root + [0] := value]);
  }

  /** A scoped value is served in column 2 of its table's entry 1. */
  lemma ScopedNumberIsServed(lib: Library, w: Writer, hs: set<Handler>, ms: seq<Message>, n: nat, root: OID, value: int)
    requires LastMessage(lib, hs, ms, n, SingleNumberWithScope(root))
    requires Understands(lib, w) && Carries(w, ms[n].fields, [value])
    ensures Slice(StoreOf(lib, ms), root) == map[root + [1, 2] := value]
  {
    CarriedReadsBack(lib, w, ms[n].fields, [value]);
    assert lib.atoi(ms[n].fields[2 + 0]) == [value][0];
    OneReplacement(lib, hs, ms, n, SingleNumberWithScope(root), map[root + [1, 2] := value]);
  }

  // ---- averages ----

  /** An accumulated statistic, sent as average, variance, low and high water mark and count, is served
      with the high water mark in column 4 and the low one in column 5. */
  lemma AccumulatedIsServed(lib: Library, w: Writer, hs: set<Handler>, ms: seq<Message>, n: nat, root: OID,
                            average: int, variance: int, low: int, high: int, count: int)
    requires LastMessage(lib, hs, ms, n, AccumulatedWithCount(root))
    requires Understands(lib, w) && Carries(w, ms[n].fields, [average, variance, low, high, count])
    ensures Slice(StoreOf(lib, ms), root)
            == map[root + [1, 2] := average, root + [1, 3] := variance, root + [1, 4] := high, root + [1, 5] := low,
                   root + [1, 6] := count]
  {
    var fields, values := ms[n].fields, [average, variance, low, high, count];
    CarriedReadsBack(lib, w, fields, values);
    assert lib.atoi(fields[2 + 0]) == values[0] && lib.atoi(fields[2 + 1]) == values[1];
    assert lib.atoi(fields[2 + 2]) == values[2] && lib.atoi(fields[2 + 3]) == values[3];
    assert lib.atoi(fields[2 + 4]) == values[4];
    OneReplacement(lib, hs, ms, n, AccumulatedWithCount(root), Accumulated(lib, root, fields));
  }

  /** Messages of these three kinds that are too short take the statistic away. */
  lemma ShortMessageClears(lib: Library, hs: set<Handler>, ms: seq<Message>, n: nat, h: Handler)
    requires LastMessage(lib, hs, ms, n, h)
    requires ((h.SingleNumber? || h.SingleNumberWithScope?) && |ms[n].fields| < 3)
             || (h.AccumulatedWithCount? && |ms[n].fields| < 7)
    ensures Slice(StoreOf(lib, ms), h.root) == map[]
  {
    OneReplacement(lib, hs, ms, n, h, map[]);
  }

  // ---- Astaire's global statistics ----

  lemma GlobalSlotsDiffer(root: OID, j: nat)
    requires j < 5
    ensures forall k | j < k < 5 :: SlotsOf(AstaireGlobal(root))[k] != SlotsOf(AstaireGlobal(root))[j]
  {
    var slots := SlotsOf(AstaireGlobal(root));
    assert forall k | 0 <= k < 5 :: slots[k][|root|] == k + 1;
  }

  lemma GlobalWriteAt(lib: Library, root: OID, fields: seq<string>, j: nat)
    requires j < 5
    ensures |GlobalWrites(lib, root, fields)| == 5
    ensures var w, slot := GlobalWrites(lib, root, fields)[j], SlotsOf(AstaireGlobal(root))[j];
            w == if |fields| >= 7 then Set(slot, lib.atoi(fields[2 + j])) else Remove(slot)
  {
  }

  // The last of Astaire's global writes to each of the five slots.
  lemma GlobalWriteDecides(lib: Library, root: OID, fields: seq<string>, before: seq<Write>, j: nat)
    requires j < 5
    ensures var slot := SlotsOf(AstaireGlobal(root))[j];
            Get(Latest(before + GlobalWrites(lib, root, fields), slot), slot)
            == if |fields| >= 7 then Some(lib.atoi(fields[2 + j])) else None
  {
    var ws := GlobalWrites(lib, root, fields);
    GlobalWriteAt(lib, root, fields, j);
    GlobalSlotsDiffer(root, j);
    forall k | j < k < |ws|
      ensures ws[k].slot != ws[j].slot
    {
      GlobalWriteAt(lib, root, fields, k);
    }
    LastWriteDecides(before, ws, j);
  }

  // What is served at the j-th of Astaire's global values.
  lemma GlobalSlotServed(lib: Library, hs: set<Handler>, ms: seq<Message>, n: nat, root: OID, j: nat)
    requires LastMessage(lib, hs, ms, n, AstaireGlobal(root)) && j < 5
    ensures Get(StoreOf(lib, ms), SlotsOf(AstaireGlobal(root))[j])
            == if |ms[n].fields| >= 7 then Some(lib.atoi(ms[n].fields[2 + j])) else None
  {
    var slot := SlotsOf(AstaireGlobal(root))[j];
    SlotAfterLast(lib, hs, ms, n, AstaireGlobal(root), slot);
    GlobalWriteDecides(lib, root, ms[n].fields, AllWrites(lib, ms[..n]), j);
    SliceAt(StoreOf(lib, ms), slot, slot);
  }

  /** Astaire's global statistics: buckets needing resynchronization and resynchronized, entries and data
      resynchronized are scalars 1 to 4; the bandwidth is in table 5, for the current period. */
  lemma GlobalIsServed(lib: Library, w: Writer, hs: set<Handler>, ms: seq<Message>, n: nat, root: OID,
                       needing: int, resynchronized: int, entries: int, data: int, bandwidth: int)
    requires LastMessage(lib, hs, ms, n, AstaireGlobal(root))
    requires Understands(lib, w) && Carries(w, ms[n].fields, [needing, resynchronized, entries, data, bandwidth])
    ensures var store := StoreOf(lib, ms);
            && Get(store, root + [1, 0]) == Some(needing) && Get(store, root + [2, 0]) == Some(resynchronized)
            && Get(store, root + [3, 0]) == Some(entries) && Get(store, root + [4, 0]) == Some(data)
            && Get(store, root + [5, 1, 2, 1]) == Some(bandwidth)
  {
    var values := [needing, resynchronized, entries, data, bandwidth];
    CarriedReadsBack(lib, w, ms[n].fields, values);
    forall j: nat | j < 5
      ensures Get(StoreOf(lib, ms), SlotsOf(AstaireGlobal(root))[j]) == Some(values[j])
    {
      GlobalSlotServed(lib, hs, ms, n, root, j);
    }
    assert SlotsOf(AstaireGlobal(root))[0] == root + [1, 0] && SlotsOf(AstaireGlobal(root))[1] == root + [2, 0];
    assert SlotsOf(AstaireGlobal(root))[2] == root + [3, 0] && SlotsOf(AstaireGlobal(root))[3] == root + [4, 0];
    assert SlotsOf(AstaireGlobal(root))[4] == root + [5, 1, 2, 1];
  }

  /** A message of fewer than seven fields takes all five away. */
  lemma ShortGlobalClears(lib: Library, hs: set<Handler>, ms: seq<Message>, n: nat, root: OID)
    requires LastMessage(lib, hs, ms, n, AstaireGlobal(root)) && |ms[n].fields| < 7
    ensures var store := StoreOf(lib, ms);
            && root + [1, 0] !in store && root + [2, 0] !in store && root + [3, 0] !in store && root + [4, 0] !in store
            && root + [5, 1, 2, 1] !in store
  {
    forall j: nat | j < 5
      ensures Get(StoreOf(lib, ms), SlotsOf(AstaireGlobal(root))[j]) == None
    {
      GlobalSlotServed(lib, hs, ms, n, root, j);
    }
    assert SlotsOf(AstaireGlobal(root))[0] == root + [1, 0] && SlotsOf(AstaireGlobal(root))[1] == root + [2, 0];
    assert SlotsOf(AstaireGlobal(root))[2] == root + [3, 0] && SlotsOf(AstaireGlobal(root))[3] == root + [4, 0];
    assert SlotsOf(AstaireGlobal(root))[4] == root + [5, 1, 2, 1];
  }

  // ---- connection counts by address ----

  datatype PeerCount = PeerCount(addr: InetAddr, count: int)

  // inet_pton reads the printed address back, the count is printable, and its digits are no address.
  ghost predicate SendablePeer(lib: Library, w: Writer, c: PeerCount) {
    && c.addr.IsValid() && lib.pton(w.ntop(c.addr)) == c.addr
    && Printable(c.count) && lib.pton(w.show(c.count)).Unknown?
  }

  // The message is a name, a status and the [address, count] pairs of `cs`; at most one field follows.
  ghost predicate CarriesPeers(lib: Library, w: Writer, fields: seq<string>, cs: seq<PeerCount>) {
    && 2 + 2 * |cs| <= |fields| <= 3 + 2 * |cs|
    && forall k | 0 <= k < |cs| ::
         && SendablePeer(lib, w, cs[k])
         && fields[2 + 2 * k] == w.ntop(cs[k].addr) && fields[3 + 2 * k] == w.show(cs[k].count)
  }

  lemma PeerReadsBack(lib: Library, w: Writer, fields: seq<string>, cs: seq<PeerCount>, k: nat)
    requires Understands(lib, w) && CarriesPeers(lib, w, fields, cs) && k < |cs|
    ensures AddressAt(lib, fields, 1, 2 + 2 * k) && lib.pton(fields[2 + 2 * k]) == cs[k].addr
    ensures lib.atoi(fields[3 + 2 * k]) == cs[k].count && !AddressAt(lib, fields, 1, 3 + 2 * k)
  {
    assert SendablePeer(lib, w, cs[k]);
    NumberReadsBack(lib, w, cs[k].count);
  }

  // Addresses are read at the address fields only.
  lemma AddressIsOfPeer(lib: Library, w: Writer, fields: seq<string>, cs: seq<PeerCount>, q: nat) returns (k: nat)
    requires Understands(lib, w) && CarriesPeers(lib, w, fields, cs) && AddressAt(lib, fields, 1, q)
    ensures k < |cs| && q == 2 + 2 * k && lib.pton(fields[q]) == cs[k].addr
  {
    k := (q - 2) / 2;
    assert q == 2 + 2 * k || q == 3 + 2 * k;
    if k < |cs| {
      PeerReadsBack(lib, w, fields, cs, k);
    }
  }

  // Pair k is the last with its address.
  ghost predicate LastPeer(cs: seq<PeerCount>, k: nat)
    requires k < |cs|
  {
    forall j | k < j < |cs| :: cs[j].addr != cs[k].addr
  }

  lemma LastPeerIsRead(lib: Library, w: Writer, fields: seq<string>, cs: seq<PeerCount>, k: nat)
    requires Understands(lib, w) && CarriesPeers(lib, w, fields, cs) && k < |cs| && LastPeer(cs, k)
    ensures LastAddressAt(lib, fields, 1, LastPosition(fields), 2 + 2 * k)
  {
    PeerReadsBack(lib, w, fields, cs, k);
    forall r | 2 + 2 * k < r < LastPosition(fields) && AddressAt(lib, fields, 1, r)
      ensures lib.pton(fields[r]) != lib.pton(fields[2 + 2 * k])
    {
      var j := AddressIsOfPeer(lib, w, fields, cs, r);
    }
  }

  // Row o is the count of one of the peers: column 3 of the table's entry 1, indexed by the address.
  ghost predicate IsPeerRow(root: OID, cs: seq<PeerCount>, o: OID) {
    exists k :: 0 <= k < |cs| && o == root + [1, 3] + cs[k].addr.ToOid()
  }

  lemma RowIsOfPeer(lib: Library, w: Writer, root: OID, fields: seq<string>, cs: seq<PeerCount>, o: OID)
    requires Understands(lib, w) && CarriesPeers(lib, w, fields, cs)
    requires o in Counts(lib, root, fields, 1, LastPosition(fields))
    ensures IsPeerRow(root, cs, o)
  {
    var q := RowHasLastAddress(lib, root, fields, 1, LastPosition(fields), o);
    var k := AddressIsOfPeer(lib, w, fields, cs, q);
    assert o == root + [1, 3] + cs[k].addr.ToOid();
  }

  lemma PeerHasRow(lib: Library, w: Writer, root: OID, fields: seq<string>, cs: seq<PeerCount>, k: nat)
    requires Understands(lib, w) && CarriesPeers(lib, w, fields, cs) && k < |cs|
    ensures root + [1, 3] + cs[k].addr.ToOid() in Counts(lib, root, fields, 1, LastPosition(fields))
  {
    PeerReadsBack(lib, w, fields, cs, k);
    AddressHasRow(lib, root, fields, 1, LastPosition(fields), 2 + 2 * k);
  }

  lemma PeerRowsAreRead(lib: Library, w: Writer, root: OID, fields: seq<string>, cs: seq<PeerCount>, o: OID)
    requires Understands(lib, w) && CarriesPeers(lib, w, fields, cs)
    ensures o in Counts(lib, root, fields, 1, LastPosition(fields)) <==> IsPeerRow(root, cs, o)
  {
    if o in Counts(lib, root, fields, 1, LastPosition(fields)) {
      RowIsOfPeer(lib, w, root, fields, cs, o);
    }
    if IsPeerRow(root, cs, o) {
      var k :| 0 <= k < |cs| && o == root + [1, 3] + cs[k].addr.ToOid();
      PeerHasRow(lib, w, root, fields, cs, k);
    }
  }

  /** Connection counts: each peer's last count is served in column 3 of the table's entry 1, indexed by
      the peer's address, and nothing else below the root. */
  lemma PeerCountsAreServed(lib: Library, w: Writer, hs: set<Handler>, ms: seq<Message>, n: nat, root: OID,
                            cs: seq<PeerCount>)
    requires LastMessage(lib, hs, ms, n, IpCount(root)) && LibraryOk(lib)
    requires Understands(lib, w) && CarriesPeers(lib, w, ms[n].fields, cs)
    ensures forall k | 0 <= k < |cs| && LastPeer(cs, k) ::
              Get(StoreOf(lib, ms), root + [1, 3] + cs[k].addr.ToOid()) == Some(cs[k].count)
    ensures forall o :: o in Slice(StoreOf(lib, ms), root) <==> IsPeerRow(root, cs, o)
  {
    var fields := ms[n].fields;
    var p := LastPosition(fields);
    OneReplacement(lib, hs, ms, n, IpCount(root), Counts(lib, root, fields, 1, p));
    forall o
      ensures o in Counts(lib, root, fields, 1, p) <==> IsPeerRow(root, cs, o)
    {
      PeerRowsAreRead(lib, w, root, fields, cs, o);
    }
    forall k | 0 <= k < |cs| && LastPeer(cs, k)
      ensures Get(StoreOf(lib, ms), root + [1, 3] + cs[k].addr.ToOid()) == Some(cs[k].count)
    {
      LastPeerIsRead(lib, w, fields, cs, k);
      PeerReadsBack(lib, w, fields, cs, k);
      LastAddressCounts(lib, root, fields, 1, p, 2 + 2 * k);
      SliceAt(StoreOf(lib, ms), root, root + [1, 3] + cs[k].addr.ToOid());
    }
  }
}
