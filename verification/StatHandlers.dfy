/** The message handlers that feed the statistics store, and what the store shows however their
    messages interleave (src/zmq_message_handler.cpp, src/astairedata.cpp). */
module StatHandlers {
  import opened Common
  import opened Oids
  import opened OidTree
  import opened Astaire
  import opened AstaireMessages

  datatype Handler =
    | Bare(root: OID)
    | SingleNumber(root: OID)
    | SingleNumberWithScope(root: OID)
    | AccumulatedWithCount(root: OID)
    | IpCount(root: OID)
    | AstaireGlobal(root: OID)
    | AstaireConnections(root: OID)

  // ---- connection counts by address ----

  function CountRow(root: OID, addr: InetAddr): OID {
    root + [1, 3] + addr.ToOid()
  }

  // Publishes field p as an address with field p + 1 as its count, if it is one.
  function AddCount(lib: Library, root: OID, msgs: seq<string>, m: OidMap, p: nat): OidMap
    requires p + 1 < |msgs|
  {
    var addr := lib.pton(msgs[p]);
    if addr.IsValid() then m[CountRow(root, addr) := lib.atoi(msgs[p + 1])] else m
  }

  /** The subtree after reading an address at fields 2, 2 + step, 2 + 2 * step, ... before field p. The
      message format means steps of two fields; the loop takes steps of one. */
  function Counts(lib: Library, root: OID, msgs: seq<string>, step: nat, p: nat): OidMap
    requires step > 0 && (p <= 2 || p < |msgs|)
  {
    if p <= 2 then map[]
    else
      var before := Counts(lib, root, msgs, step, p - 1);
      if (p - 3) % step == 0 then AddCount(lib, root, msgs, before, p - 1) else before
  }

  // One past the last field that has another after it.
  function LastPosition(msgs: seq<string>): nat {
    if |msgs| <= 3 then 2 else |msgs| - 1
  }

  // Field q is an address that is followed by another field and is read when stepping by `step`.
  ghost predicate AddressAt(lib: Library, msgs: seq<string>, step: nat, q: nat)
    requires step > 0
  {
    2 <= q && q + 1 < |msgs| && (q - 2) % step == 0 && lib.pton(msgs[q]).IsValid()
  }

  // Field q is the last one before p at which that address is read.
  ghost predicate LastAddressAt(lib: Library, msgs: seq<string>, step: nat, p: nat, q: nat)
    requires step > 0
  {
    && q < p && AddressAt(lib, msgs, step, q)
    && forall r | q < r < p && AddressAt(lib, msgs, step, r) :: lib.pton(msgs[r]) != lib.pton(msgs[q])
  }

  // Two fields that publish the same row with the same count.
  ghost predicate SameCount(lib: Library, msgs: seq<string>, q: nat, r: nat) {
    && q + 1 < |msgs| && r + 1 < |msgs|
    && lib.pton(msgs[q]) == lib.pton(msgs[r]) && lib.atoi(msgs[q + 1]) == lib.atoi(msgs[r + 1])
  }

  lemma SameCountRow(root: OID, a: InetAddr, b: InetAddr)
    requires a.IsValid() && a.WellFormed() && b.IsValid() && b.WellFormed()
    requires CountRow(root, a) == CountRow(root, b)
    ensures a == b
  {
    assert CountRow(root, a)[|root| + 2..] == a.ToOid() + [];
    assert CountRow(root, b)[|root| + 2..] == b.ToOid() + [];
    AddressIsDecodable(a, [], b, []);
  }

  // Reading one field more changes only the row of an address read there.
  lemma CountsOneMore(lib: Library, root: OID, msgs: seq<string>, step: nat, p: nat, k: OID)
    requires step > 0 && 2 < p < |msgs|
    ensures Get(Counts(lib, root, msgs, step, p), k)
            == if AddressAt(lib, msgs, step, p - 1) && k == CountRow(root, lib.pton(msgs[p - 1]))
               then Some(lib.atoi(msgs[p])) else Get(Counts(lib, root, msgs, step, p - 1), k)
  {
  }

  // Every row is that of the last field its address is read at, and has the count after that field.
  lemma {:induction false} RowHasLastAddress(lib: Library, root: OID, msgs: seq<string>, step: nat, p: nat, k: OID)
    returns (q: nat)
    requires step > 0 && (p <= 2 || p < |msgs|) && k in Counts(lib, root, msgs, step, p)
    ensures LastAddressAt(lib, msgs, step, p, q)
    ensures k == CountRow(root, lib.pton(msgs[q])) && Counts(lib, root, msgs, step, p)[k] == lib.atoi(msgs[q + 1])
  {
    CountsOneMore(lib, root, msgs, step, p, k);
    if AddressAt(lib, msgs, step, p - 1) && k == CountRow(root, lib.pton(msgs[p - 1])) {
      q := p - 1;
    } else {
      q := RowHasLastAddress(lib, root, msgs, step, p - 1, k);
    }
  }

  // Every address read gives a row.
  lemma {:induction false} AddressHasRow(lib: Library, root: OID, msgs: seq<string>, step: nat, p: nat, q: nat)
    requires step > 0 && (p <= 2 || p < |msgs|) && q < p && AddressAt(lib, msgs, step, q)
    ensures CountRow(root, lib.pton(msgs[q])) in Counts(lib, root, msgs, step, p)
  {
    if q < p - 1 {
      AddressHasRow(lib, root, msgs, step, p - 1, q);
    }
  }

  // The row of an address has the count after the last field the address is read at.
  lemma LastAddressCounts(lib: Library, root: OID, msgs: seq<string>, step: nat, p: nat, q: nat)
    requires LibraryOk(lib) && step > 0 && (p <= 2 || p < |msgs|) && LastAddressAt(lib, msgs, step, p, q)
    ensures Get(Counts(lib, root, msgs, step, p), CountRow(root, lib.pton(msgs[q]))) == Some(lib.atoi(msgs[q + 1]))
  {
    AddressHasRow(lib, root, msgs, step, p, q);
    var r := RowHasLastAddress(lib, root, msgs, step, p, CountRow(root, lib.pton(msgs[q])));
    SameCountRow(root, lib.pton(msgs[q]), lib.pton(msgs[r]));
  }

  // Whenever an address is read last at a count field, its last pair has the same count.
  ghost predicate PairsPrevail(lib: Library, msgs: seq<string>) {
    var p := LastPosition(msgs);
    forall r: nat | r % 2 == 1 && LastAddressAt(lib, msgs, 1, p, r) ::
      exists q: nat :: LastAddressAt(lib, msgs, 2, p, q) && SameCount(lib, msgs, q, r)
  }

  // The last field an address is read at has a pair with the same count.
  lemma LastFieldHasPair(lib: Library, msgs: seq<string>, r: nat) returns (q: nat)
    requires PairsPrevail(lib, msgs) && LastAddressAt(lib, msgs, 1, LastPosition(msgs), r)
    ensures LastAddressAt(lib, msgs, 2, LastPosition(msgs), q) && SameCount(lib, msgs, q, r)
  {
    q := r;
    if r % 2 == 1 {
      q :| LastAddressAt(lib, msgs, 2, LastPosition(msgs), q) && SameCount(lib, msgs, q, r);
    }
  }

  lemma FieldRowIsPairRow(lib: Library, root: OID, msgs: seq<string>, p: nat, k: OID)
    requires LibraryOk(lib) && PairsPrevail(lib, msgs) && p == LastPosition(msgs) && k in Counts(lib, root, msgs, 1, p)
    ensures Get(Counts(lib, root, msgs, 2, p), k) == Get(Counts(lib, root, msgs, 1, p), k)
  {
    var r := RowHasLastAddress(lib, root, msgs, 1, p, k);
    var q := LastFieldHasPair(lib, msgs, r);
    LastAddressCounts(lib, root, msgs, 2, p, q);
  }

  lemma PairRowIsFieldRow(lib: Library, root: OID, msgs: seq<string>, p: nat, k: OID)
    requires p == LastPosition(msgs) && k in Counts(lib, root, msgs, 2, p)
    ensures k in Counts(lib, root, msgs, 1, p)
  {
    var q := RowHasLastAddress(lib, root, msgs, 2, p, k);
    AddressHasRow(lib, root, msgs, 1, p, q);
  }

  lemma FieldCountIsPairCount(lib: Library, root: OID, msgs: seq<string>, k: OID)
    requires LibraryOk(lib) && PairsPrevail(lib, msgs)
    ensures Get(Counts(lib, root, msgs, 1, LastPosition(msgs)), k)
            == Get(Counts(lib, root, msgs, 2, LastPosition(msgs)), k)
  {
    var p := LastPosition(msgs);
    if k in Counts(lib, root, msgs, 1, p) {
      FieldRowIsPairRow(lib, root, msgs, p, k);
    } else if k in Counts(lib, root, msgs, 2, p) {
      PairRowIsFieldRow(lib, root, msgs, p, k);
    }
  }

  lemma LastCountFieldHasPair(lib: Library, root: OID, msgs: seq<string>, r: nat) returns (q: nat)
    requires LibraryOk(lib) && LastAddressAt(lib, msgs, 1, LastPosition(msgs), r)
    requires Counts(lib, root, msgs, 1, LastPosition(msgs)) == Counts(lib, root, msgs, 2, LastPosition(msgs))
    ensures LastAddressAt(lib, msgs, 2, LastPosition(msgs), q) && SameCount(lib, msgs, q, r)
  {
    var p, k := LastPosition(msgs), CountRow(root, lib.pton(msgs[r]));
    LastAddressCounts(lib, root, msgs, 1, p, r);
    q := RowHasLastAddress(lib, root, msgs, 2, p, k);
    SameCountRow(root, lib.pton(msgs[r]), lib.pton(msgs[q]));
  }

  /** The loop, which steps one field at a time, publishes what reading [address, count] pairs would,
      exactly when every address whose last occurrence is in a count field has the same count in its
      last pair; in particular whenever no count field is an address. */
  lemma FieldStepsReadPairs(lib: Library, root: OID, msgs: seq<string>)
    requires LibraryOk(lib)
    ensures Counts(lib, root, msgs, 1, LastPosition(msgs)) == Counts(lib, root, msgs, 2, LastPosition(msgs)) <==>
            PairsPrevail(lib, msgs)
    ensures (forall r: nat | r % 2 == 1 :: !AddressAt(lib, msgs, 1, r)) ==>
              Counts(lib, root, msgs, 1, LastPosition(msgs)) == Counts(lib, root, msgs, 2, LastPosition(msgs))
  {
    var byField := Counts(lib, root, msgs, 1, LastPosition(msgs));
    var byPair := Counts(lib, root, msgs, 2, LastPosition(msgs));
    if PairsPrevail(lib, msgs) {
      forall k
        ensures Get(byField, k) == Get(byPair, k)
      {
        FieldCountIsPairCount(lib, root, msgs, k);
      }
      SameValues(byField, byPair);
    } else if byField == byPair {
      var r: nat :| && r % 2 == 1 && LastAddressAt(lib, msgs, 1, LastPosition(msgs), r)
                    && !exists q: nat :: LastAddressAt(lib, msgs, 2, LastPosition(msgs), q)
                                         && SameCount(lib, msgs, q, r);
      var q := LastCountFieldHasPair(lib, root, msgs, r);
    }
  }

  /** A count that is an address is published as one, with the next field as its count. */
  lemma CountThatIsAnAddress(lib: Library, root: OID, a: string, b: string, c: string)
    requires LibraryOk(lib) && lib.pton(a).IsValid() && lib.pton(b).IsValid() && lib.pton(a) != lib.pton(b)
    ensures var msgs, row := ["stat", "OK", a, b, c], CountRow(root, lib.pton(b));
            && Get(Counts(lib, root, msgs, 1, LastPosition(msgs)), row) == Some(lib.atoi(c))
            && Get(Counts(lib, root, msgs, 2, LastPosition(msgs)), row) == None
  {
    var msgs, row := ["stat", "OK", a, b, c], CountRow(root, lib.pton(b));
    assert LastAddressAt(lib, msgs, 1, 4, 3);
    LastAddressCounts(lib, root, msgs, 1, 4, 3);
    if row in Counts(lib, root, msgs, 2, 4) {
      var q := RowHasLastAddress(lib, root, msgs, 2, 4, row);
      assert q == 2;
      SameCountRow(root, lib.pton(a), lib.pton(b));
    }
  }

  lemma {:induction false} CountsUnderRoot(lib: Library, root: OID, msgs: seq<string>, p: nat)
    requires p <= 2 || p < |msgs|
    ensures KeysUnder(root, Counts(lib, root, msgs, 1, p))
  {
    if p > 2 {
      CountsUnderRoot(lib, root, msgs, p - 1);
    }
  }

  // ---- every handler as the writes it makes ----

  function TableWrites(root: OID, t: Tables): seq<Write> {
    [Replace(ConnectionBase(root), t.connections), Replace(BucketBase(root), t.buckets),
     Replace(BandwidthBase(root), t.bandwidths)]
  }

  // The message carries the low water mark before the high one, the table after it.
  function Accumulated(lib: Library, root: OID, msgs: seq<string>): OidMap
    requires |msgs| >= 7
  {
    map[root + [1, 2] := lib.atoi(msgs[2]), root + [1, 3] := lib.atoi(msgs[3]),
        root + [1, 4] := lib.atoi(msgs[5]), root + [1, 5] := lib.atoi(msgs[4]),
        root + [1, 6] := lib.atoi(msgs[6])]
  }

  function GlobalWrites(lib: Library, root: OID, msgs: seq<string>): seq<Write> {
    if |msgs| >= 7 then
      [Set(root + [1, 0], lib.atoi(msgs[2])), Set(root + [2, 0], lib.atoi(msgs[3])),
       Set(root + [3, 0], lib.atoi(msgs[4])),
       Set(root + [4, 0], lib.atoi(msgs[5])), Set(root + [5, 1, 2, 1], lib.atoi(msgs[6]))]
    else
      [Remove(root + [1, 0]), Remove(root + [2, 0]), Remove(root + [3, 0]),
       Remove(root + [4, 0]), Remove(root + [5, 1, 2, 1])]
  }

  // The listener only hands over messages whose first two fields are there.
  function WritesOf(lib: Library, h: Handler, msgs: seq<string>): seq<Write>
    requires |msgs| >= 2
  {
    match h
    case Bare(root) => if |msgs| >= 3 then [Set(root, lib.atoi(msgs[2]))] else []
    case SingleNumber(root) =>
      [Replace(root, if |msgs| >= 3 then map[root + [0] := lib.atoi(msgs[2])] else map[])]
    case SingleNumberWithScope(root) =>
      [Replace(root, if |msgs| >= 3 then map[root + [1, 2] := lib.atoi(msgs[2])] else map[])]
    case AccumulatedWithCount(root) =>
      [Replace(root, if |msgs| >= 7 then Accumulated(lib, root, msgs) else map[])]
    case IpCount(root) => [Replace(root, Counts(lib, root, msgs, 1, LastPosition(msgs)))]
    case AstaireGlobal(root) => GlobalWrites(lib, root, msgs)
    case AstaireConnections(root) => TableWrites(root, Published(root, ParseFrom(lib, msgs, 2)))
  }

  /** The roots a handler writes under. */
  function SlotsOf(h: Handler): seq<OID> {
    match h
    case AstaireGlobal(root) => [root + [1, 0], root + [2, 0], root + [3, 0], root + [4, 0], root + [5, 1, 2, 1]]
    case AstaireConnections(root) => [ConnectionBase(root), BucketBase(root), BandwidthBase(root)]
    case _ => [h.root]
  }

  lemma TableWritesStayInSlots(root: OID, r: Report, w: Write)
    requires w in TableWrites(root, Published(root, r))
    ensures w.slot in SlotsOf(AstaireConnections(root)) && w.Replace? && KeysUnder(w.slot, w.update)
  {
    TablesStayUnderTheirBases(root, r.complete + (if r.cut.Some? then [r.cut.value] else []));
  }

  lemma GlobalWritesStayInSlots(lib: Library, root: OID, msgs: seq<string>, w: Write)
    requires w in GlobalWrites(lib, root, msgs)
    ensures w.slot in SlotsOf(AstaireGlobal(root)) && !w.Replace?
  {
  }

  // A handler writes only under its own slots.
  lemma HandlerStaysInSlots(lib: Library, h: Handler, msgs: seq<string>, w: Write)
    requires |msgs| >= 2 && w in WritesOf(lib, h, msgs)
    ensures w.slot in SlotsOf(h) && (w.Replace? ==> KeysUnder(w.slot, w.update))
  {
    match h
    case IpCount(root) => CountsUnderRoot(lib, root, msgs, LastPosition(msgs));
    case AstaireGlobal(root) => GlobalWritesStayInSlots(lib, root, msgs, w);
    case AstaireConnections(root) => TableWritesStayInSlots(root, ParseFrom(lib, msgs, 2), w);
    case _ =>
  }

  // ---- runs of messages ----

  datatype Message = Message(handler: Handler, fields: seq<string>)

  // Messages of these handlers, long enough to be handed over, and with bucket lists that end within
  // an int.
  ghost predicate Acceptable(lib: Library, hs: set<Handler>, ms: seq<Message>) {
    forall n | 0 <= n < |ms| ::
      && ms[n].handler in hs && |ms[n].fields| >= 2
      && (ms[n].handler.AstaireConnections? ==> EndsFit(lib, ms[n].fields, 2))
  }

  function AllWrites(lib: Library, ms: seq<Message>): seq<Write>
    requires forall n | 0 <= n < |ms| :: |ms[n].fields| >= 2
  {
    if ms == [] then [] else AllWrites(lib, Front(ms)) + WritesOf(lib, Last(ms).handler, Last(ms).fields)
  }

  ghost function AllSlots(hs: set<Handler>): set<OID> {
    set h, s | h in hs && s in SlotsOf(h) :: s
  }

  lemma {:induction false} MessagesStayInSlots(lib: Library, hs: set<Handler>, ms: seq<Message>)
    requires Acceptable(lib, hs, ms)
    ensures WritesWithin(AllSlots(hs), AllWrites(lib, ms))
  {
    if ms != [] {
      MessagesStayInSlots(lib, hs, Front(ms));
      var m := Last(ms);
      forall w | w in WritesOf(lib, m.handler, m.fields)
        ensures w.slot in AllSlots(hs) && (w.Replace? ==> KeysUnder(w.slot, w.update))
      {
        HandlerStaysInSlots(lib, m.handler, m.fields, w);
      }
    }
  }

  /** Whatever messages arrive in whatever order, the store shows under each slot what the messages
      for that slot alone would have left there, and nothing outside the slots; no stored key is an
      ancestor of a slot. It takes only that no slot of the handlers is a prefix of another. */
  lemma StoreShowsEachHandlersData(lib: Library, hs: set<Handler>, ms: seq<Message>)
    requires Antichain(AllSlots(hs)) && Acceptable(lib, hs, ms)
    ensures var store := ApplyAll(map[], AllWrites(lib, ms));
            && UnderSlots(AllSlots(hs), store)
            && forall s | s in AllSlots(hs) ::
                 Slice(store, s) == Latest(AllWrites(lib, ms), s) && !HasAncestor(store, s)
  {
    MessagesStayInSlots(lib, hs, ms);
    SlotsAreIndependent(AllSlots(hs), AllWrites(lib, ms));
  }

  // ---- from an Astaire message to what SNMP serves ----

  // Each write takes the lock by itself, so requests are answered between any two writes: the store
  // after the first p writes of a run.
  function StoreAt(lib: Library, ms: seq<Message>, p: nat): OidMap
    requires (forall n | 0 <= n < |ms| :: |ms[n].fields| >= 2) && p <= |AllWrites(lib, ms)|
  {
    ApplyAll(map[], AllWrites(lib, ms)[..p])
  }

  // The number of writes made before message n.
  function StartOf(lib: Library, ms: seq<Message>, n: nat): nat
    requires n < |ms| && forall k | 0 <= k < |ms| :: |ms[k].fields| >= 2
  {
    |AllWrites(lib, ms[..n])|
  }

  lemma AllWritesSnoc(lib: Library, ms: seq<Message>, m: Message)
    requires (forall k | 0 <= k < |ms| :: |ms[k].fields| >= 2) && |m.fields| >= 2
    ensures AllWrites(lib, ms + [m]) == AllWrites(lib, ms) + WritesOf(lib, m.handler, m.fields)
  {
    assert Front(ms + [m]) == ms && Last(ms + [m]) == m;
  }

  lemma WritesAssociate(a: seq<Write>, b: seq<Write>, c: seq<Write>)
    ensures a + b + c == a + (b + c)
  {
  }

  lemma {:induction false} AllWritesConcat(lib: Library, ms: seq<Message>, more: seq<Message>)
    requires forall k | 0 <= k < |ms| :: |ms[k].fields| >= 2
    requires forall k | 0 <= k < |more| :: |more[k].fields| >= 2
    ensures AllWrites(lib, ms + more) == AllWrites(lib, ms) + AllWrites(lib, more)
  {
    if more == [] {
      assert ms + more == ms;
    } else {
      var front, last := Front(more), Last(more);
      assert more == front + [last] && ms + more == ms + front + [last];
      AllWritesConcat(lib, ms, front);
      AllWritesSnoc(lib, ms + front, last);
      AllWritesSnoc(lib, front, last);
      WritesAssociate(AllWrites(lib, ms), AllWrites(lib, front), WritesOf(lib, last.handler, last.fields));
    }
  }

  // A run's writes are those before message n, those of n and those of later messages.
  lemma WritesAround(lib: Library, ms: seq<Message>, n: nat)
    requires n < |ms| && forall k | 0 <= k < |ms| :: |ms[k].fields| >= 2
    ensures AllWrites(lib, ms) == AllWrites(lib, ms[..n]) + WritesOf(lib, ms[n].handler, ms[n].fields)
                                  + AllWrites(lib, ms[n + 1..])
  {
    assert ms == ms[..n + 1] + ms[n + 1..] && ms[..n + 1] == ms[..n] + [ms[n]];
    AllWritesConcat(lib, ms[..n + 1], ms[n + 1..]);
    AllWritesSnoc(lib, ms[..n], ms[n]);
  }

  // Messages of handlers without `slot` do not write there.
  lemma {:induction false} WritesElsewhere(lib: Library, ms: seq<Message>, slot: OID)
    requires forall k | 0 <= k < |ms| :: |ms[k].fields| >= 2 && slot !in SlotsOf(ms[k].handler)
    ensures forall w | w in AllWrites(lib, ms) :: w.slot != slot
  {
    if ms != [] {
      WritesElsewhere(lib, Front(ms), slot);
      forall w | w in WritesOf(lib, Last(ms).handler, Last(ms).fields)
        ensures w.slot != slot
      {
        HandlerStaysInSlots(lib, Last(ms).handler, Last(ms).fields, w);
      }
    }
  }

  // At every moment the store shows under each slot what the writes to it so far alone leave.
  lemma StoreAtShowsEachSlot(lib: Library, hs: set<Handler>, ms: seq<Message>, p: nat, slot: OID)
    requires Antichain(AllSlots(hs)) && Acceptable(lib, hs, ms) && p <= |AllWrites(lib, ms)| && slot in AllSlots(hs)
    ensures Slice(StoreAt(lib, ms, p), slot) == Latest(AllWrites(lib, ms)[..p], slot)
  {
    MessagesStayInSlots(lib, hs, ms);
    SlotsAreIndependent(AllSlots(hs), AllWrites(lib, ms)[..p]);
  }

  // No message from n on but n itself writes to Astaire's tables.
  ghost predicate LastAstaireMessage(ms: seq<Message>, n: nat, root: OID) {
    && n < |ms| && ms[n].handler == AstaireConnections(root)
    && forall k | n < k < |ms| ::
         forall s | s in SlotsOf(AstaireConnections(root)) :: s !in SlotsOf(ms[k].handler)
  }

  lemma AstaireBasesDiffer(root: OID)
    ensures ConnectionBase(root) != BucketBase(root) && BucketBase(root) != BandwidthBase(root)
    ensures ConnectionBase(root) != BandwidthBase(root)
  {
    assert ConnectionBase(root)[|root|] == 6 && BucketBase(root)[|root|] == 7 && BandwidthBase(root)[|root|] == 8;
  }

  lemma TableSlots(root: OID, t: Tables, j: nat)
    requires j < 3
    ensures TableWrites(root, t)[j].slot in SlotsOf(AstaireConnections(root)) && TableWrites(root, t)[j].Replace?
    ensures forall k | 0 <= k < 3 && k != j :: TableWrites(root, t)[k].slot != TableWrites(root, t)[j].slot
  {
    AstaireBasesDiffer(root);
    assert TableWrites(root, t)[j].slot == SlotsOf(AstaireConnections(root))[j];
  }

  // The tables that message n of a run publishes.
  function TablesSent(lib: Library, ms: seq<Message>, n: nat, root: OID): Tables
    requires n < |ms| && |ms[n].fields| >= 2
  {
    Published(root, ParseFrom(lib, ms[n].fields, 2))
  }

  lemma PrefixOfWrites(a: seq<Write>, b: seq<Write>, c: seq<Write>)
    ensures (a + b + c)[..|a|] == a && |a| + |b| <= |a + b + c|
  {
  }

  lemma WritesAroundTables(lib: Library, ms: seq<Message>, n: nat, root: OID)
    requires n < |ms| && forall k | 0 <= k < |ms| :: |ms[k].fields| >= 2
    requires ms[n].handler == AstaireConnections(root)
    ensures AllWrites(lib, ms)
            == AllWrites(lib, ms[..n]) + TableWrites(root, TablesSent(lib, ms, n, root)) + AllWrites(lib, ms[n + 1..])
    ensures StartOf(lib, ms, n) + 3 <= |AllWrites(lib, ms)|
    ensures AllWrites(lib, ms)[..StartOf(lib, ms, n)] == AllWrites(lib, ms[..n])
  {
    WritesAround(lib, ms, n);
    var ws := TableWrites(root, TablesSent(lib, ms, n, root));
    PrefixOfWrites(AllWrites(lib, ms[..n]), ws, AllWrites(lib, ms[n + 1..]));
  }

  lemma TableAmongWrites(root: OID, t: Tables, before: seq<Write>, rest: seq<Write>, j: nat, p: nat)
    requires j < 3 && |before| <= p <= |before + TableWrites(root, t) + rest|
    requires forall w | w in rest :: w.slot != TableWrites(root, t)[j].slot
    ensures var w := TableWrites(root, t)[j];
            Latest((before + TableWrites(root, t) + rest)[..p], w.slot)
            == if |before| + j < p then w.update else Latest(before, w.slot)
  {
    var ws := TableWrites(root, t);
    TableSlots(root, t, j);
    if |before| + j < p {
      ReplacementStands(before, ws, rest, j, p);
    } else {
      SlotStands(before, ws, rest, j, p);
    }
  }

  // What table j shows after the first p writes, given the writes around message n.
  lemma TableShownAfter(lib: Library, ms: seq<Message>, n: nat, root: OID, j: nat, p: nat)
    requires (forall k | 0 <= k < |ms| :: |ms[k].fields| >= 2) && LastAstaireMessage(ms, n, root) && j < 3
    requires StartOf(lib, ms, n) <= p <= |AllWrites(lib, ms)|
    ensures var w := TableWrites(root, TablesSent(lib, ms, n, root))[j];
            Latest(AllWrites(lib, ms)[..p], w.slot)
            == if StartOf(lib, ms, n) + j < p then w.update else Latest(AllWrites(lib, ms[..n]), w.slot)
  {
    var before, rest := AllWrites(lib, ms[..n]), AllWrites(lib, ms[n + 1..]);
    var slot := TableWrites(root, TablesSent(lib, ms, n, root))[j].slot;
    WritesAroundTables(lib, ms, n, root);
    TableSlots(root, TablesSent(lib, ms, n, root), j);
    WritesElsewhere(lib, ms[n + 1..], slot);
    TableAmongWrites(root, TablesSent(lib, ms, n, root), before, rest, j, p);
  }

  /** The three tables of an Astaire message are replaced one after the other, not together: at any
      moment from the message on, table j is that of the message if write j was made, and until then
      what it was before the message. */
  lemma TablesReplacedInTurn(lib: Library, hs: set<Handler>, ms: seq<Message>, n: nat, root: OID, j: nat, p: nat)
    requires Antichain(AllSlots(hs)) && Acceptable(lib, hs, ms) && LastAstaireMessage(ms, n, root) && j < 3
    requires StartOf(lib, ms, n) <= p <= |AllWrites(lib, ms)|
    ensures StartOf(lib, ms, n) + 3 <= |AllWrites(lib, ms)|
    ensures var w := TableWrites(root, TablesSent(lib, ms, n, root))[j];
            Slice(StoreAt(lib, ms, p), w.slot)
            == if StartOf(lib, ms, n) + j < p then w.update else Slice(StoreAt(lib, ms, StartOf(lib, ms, n)), w.slot)
  {
    var slot := TableWrites(root, TablesSent(lib, ms, n, root))[j].slot;
    WritesAroundTables(lib, ms, n, root);
    TableSlots(root, TablesSent(lib, ms, n, root), j);
    StoreAtShowsEachSlot(lib, hs, ms, p, slot);
    StoreAtShowsEachSlot(lib, hs, ms, StartOf(lib, ms, n), slot);
    TableShownAfter(lib, ms, n, root, j, p);
  }

  // The store's slices below the three bases.
  function SlicesOf(store: OidMap, root: OID): Tables {
    Tables(Slice(store, ConnectionBase(root)), Slice(store, BucketBase(root)), Slice(store, BandwidthBase(root)))
  }

  /** Once all three writes of the last Astaire message are made, the tables are those of that message. */
  lemma LastAstaireMessageStands(lib: Library, hs: set<Handler>, ms: seq<Message>, n: nat, root: OID, p: nat)
    requires Antichain(AllSlots(hs)) && Acceptable(lib, hs, ms) && LastAstaireMessage(ms, n, root)
    requires StartOf(lib, ms, n) + 3 <= p <= |AllWrites(lib, ms)|
    ensures SlicesOf(StoreAt(lib, ms, p), root) == TablesSent(lib, ms, n, root)
  {
    TablesReplacedInTurn(lib, hs, ms, n, root, 0, p);
    TablesReplacedInTurn(lib, hs, ms, n, root, 1, p);
    TablesReplacedInTurn(lib, hs, ms, n, root, 2, p);
  }

  lemma LastAstaireMessagePrevails(lib: Library, hs: set<Handler>, ms: seq<Message>, n: nat, root: OID)
    requires Antichain(AllSlots(hs)) && Acceptable(lib, hs, ms) && LastAstaireMessage(ms, n, root)
    ensures SlicesOf(ApplyAll(map[], AllWrites(lib, ms)), root) == TablesSent(lib, ms, n, root)
  {
    var all := AllWrites(lib, ms);
    assert all[..|all|] == all;
    WritesAroundTables(lib, ms, n, root);
    LastAstaireMessageStands(lib, hs, ms, n, root, |all|);
  }

  // A walk of the table below `base` lists exactly `rows`, in OID order.
  ghost predicate WalkLists(store: OidMap, base: OID, rows: iset<OID>) {
    && Increasing(Walk(store, base, base))
    && forall o :: o in Walk(store, base, base) <==> o in rows
  }

  ghost function ConnectionRows(root: OID, cs: seq<Connection>): iset<OID> { iset o | IsConnectionRow(root, cs, o) }
  ghost function BucketRows(root: OID, cs: seq<Connection>): iset<OID> { iset o | IsBucketRow(root, cs, o) }
  ghost function BandwidthRows(root: OID, cs: seq<Connection>): iset<OID> { iset o | IsBandwidthRow(root, cs, o) }

  /** GET answers every row with the value of the last connection or bucket it belongs to, and a walk of
      each of the three tables lists exactly the rows of these connections, in OID order. */
  ghost predicate Serves(store: OidMap, root: OID, cs: seq<Connection>) {
    && (forall k | 0 <= k < |cs| && LastConnection(cs, k) :: ShowsConnection(root, Tables(store, store, store), cs[k]))
    && (forall k, j | 0 <= k < |cs| && 0 <= j < |cs[k].buckets| && LastBucket(cs, k, j) ::
          ShowsBucket(root, Tables(store, store, store), cs[k], cs[k].buckets[j]))
    && WalkLists(store, ConnectionBase(root), ConnectionRows(root, cs))
    && WalkLists(store, BucketBase(root), BucketRows(root, cs))
    && WalkLists(store, BandwidthBase(root), BandwidthRows(root, cs))
  }

  // What the slices of a store show, the store shows.
  lemma SlicesShow(root: OID, store: OidMap, c: Connection)
    ensures ShowsConnection(root, SlicesOf(store, root), c) ==> ShowsConnection(root, Tables(store, store, store), c)
    ensures forall b :: ShowsBucket(root, SlicesOf(store, root), c, b) ==>
                          ShowsBucket(root, Tables(store, store, store), c, b)
  {
  }

  // `rows` are the keys of a table, its base not among them.
  ghost predicate AreKeys(rows: iset<OID>, table: OidMap, base: OID) {
    (forall o :: o in rows <==> o in table) && base !in rows
  }

  lemma WalkOfSlice(store: OidMap, base: OID, rows: iset<OID>)
    requires AreKeys(rows, Slice(store, base), base)
    ensures WalkLists(store, base, rows)
  {
    WalkIsComplete(store, base);
    assert forall o :: o in Slice(store, base) <==> o in store && base <= o;
  }

  lemma BasesAreNoRows(root: OID, cs: seq<Connection>)
    ensures !IsConnectionRow(root, cs, ConnectionBase(root))
    ensures !IsBucketRow(root, cs, BucketBase(root)) && !IsBandwidthRow(root, cs, BandwidthBase(root))
  {
    forall n, b | 0 <= n < |cs| && b in cs[n].buckets
      ensures |EntriesRow(root, cs[n], b)| > |BucketBase(root)| && |DataRow(root, cs[n], b)| > |BucketBase(root)|
      ensures |BandwidthRow(root, cs[n], b)| > |BandwidthBase(root)|
    {
    }
    assert forall n | 0 <= n < |cs| :: && |NeedingRow(root, cs[n])| > |ConnectionBase(root)|
                                       && |ResynchronizedRow(root, cs[n])| > |ConnectionBase(root)|;
  }

  lemma RowsAreKeys(root: OID, cs: seq<Connection>)
    ensures AreKeys(ConnectionRows(root, cs), TablesOf(root, cs).connections, ConnectionBase(root))
    ensures AreKeys(BucketRows(root, cs), TablesOf(root, cs).buckets, BucketBase(root))
    ensures AreKeys(BandwidthRows(root, cs), TablesOf(root, cs).bandwidths, BandwidthBase(root))
  {
    forall o {
      RowsOfTables(root, cs, o);
    }
    BasesAreNoRows(root, cs);
  }

  lemma TablesAreWalked(store: OidMap, root: OID, cs: seq<Connection>)
    requires SlicesOf(store, root) == TablesOf(root, cs)
    ensures WalkLists(store, ConnectionBase(root), ConnectionRows(root, cs))
    ensures WalkLists(store, BucketBase(root), BucketRows(root, cs))
    ensures WalkLists(store, BandwidthBase(root), BandwidthRows(root, cs))
  {
    RowsAreKeys(root, cs);
    WalkOfSlice(store, ConnectionBase(root), ConnectionRows(root, cs));
    WalkOfSlice(store, BucketBase(root), BucketRows(root, cs));
    WalkOfSlice(store, BandwidthBase(root), BandwidthRows(root, cs));
  }

  lemma TablesAreServed(store: OidMap, root: OID, cs: seq<Connection>)
    requires SlicesOf(store, root) == TablesOf(root, cs) && AllIndexable(cs)
    ensures Serves(store, root, cs)
  {
    forall k | 0 <= k < |cs|
      ensures LastConnection(cs, k) ==> ShowsConnection(root, Tables(store, store, store), cs[k])
    {
      if LastConnection(cs, k) {
        LastConnectionPrevails(root, cs, k);
        SlicesShow(root, store, cs[k]);
      }
    }
    forall k, j | 0 <= k < |cs| && 0 <= j < |cs[k].buckets| && LastBucket(cs, k, j)
      ensures ShowsBucket(root, Tables(store, store, store), cs[k], cs[k].buckets[j])
    {
      LastBucketPrevails(root, cs, k, j);
      SlicesShow(root, store, cs[k]);
    }
    TablesAreWalked(store, root, cs);
  }

  lemma SendableIsIndexable(lib: Library, w: Writer, cs: seq<Connection>)
    requires LibraryOk(lib) && AllSendable(lib, w, cs)
    ensures AllIndexable(cs)
  {
    forall n | 0 <= n < |cs|
      ensures Indexable(cs[n])
    {
      assert Sendable(lib, w, cs[n]);
    }
  }

  lemma SentTables(lib: Library, w: Writer, root: OID, cs: seq<Connection>)
    requires Understands(lib, w) && AllSendable(lib, w, cs)
    ensures Published(root, ParseFrom(lib, ["astaire_connections", "OK"] + EncodeAll(w, cs), 2)) == TablesOf(root, cs)
  {
    MessageReadsBack(lib, w, cs);
    PublishedWhole(root, cs);
  }

  /** End to end: the message that Astaire prints for any list of connections is served, whatever
      other handlers receive before and after it. */
  lemma WhatAstaireSendsIsServed(lib: Library, w: Writer, hs: set<Handler>, ms: seq<Message>, n: nat,
                                 root: OID, cs: seq<Connection>)
    requires Antichain(AllSlots(hs)) && Acceptable(lib, hs, ms) && LastAstaireMessage(ms, n, root)
    requires ms[n].fields == ["astaire_connections", "OK"] + EncodeAll(w, cs)
    requires LibraryOk(lib) && Understands(lib, w) && AllSendable(lib, w, cs)
    ensures Serves(ApplyAll(map[], AllWrites(lib, ms)), root, cs)
  {
    LastAstaireMessagePrevails(lib, hs, ms, n, root);
    SentTables(lib, w, root, cs);
    SendableIsIndexable(lib, w, cs);
    TablesAreServed(ApplyAll(map[], AllWrites(lib, ms)), root, cs);
  }

  // ---- walks while messages arrive ----

  // The stores that answer a walk's requests, request t coming after the first at[t] writes.
  ghost predicate Answer(lib: Library, ms: seq<Message>, at: seq<nat>, stores: seq<OidMap>)
    requires forall n | 0 <= n < |ms| :: |ms[n].fields| >= 2
  {
    && |stores| == |at|
    && forall t | 0 <= t < |at| :: at[t] <= |AllWrites(lib, ms)| && stores[t] == StoreAt(lib, ms, at[t])
  }

  ghost predicate MovingWalkLists(stores: seq<OidMap>, base: OID, rows: iset<OID>) {
    var keys := MovingWalk(stores, base, base);
    |keys| < |stores| && Increasing(keys) && forall o :: o in keys <==> o in rows
  }

  lemma MovingWalkOfSlice(stores: seq<OidMap>, base: OID, slice: OidMap, rows: iset<OID>)
    requires (forall k | 0 <= k < |stores| :: Slice(stores[k], base) == slice) && AreKeys(rows, slice, base)
    ensures |slice| < |stores| ==> MovingWalkLists(stores, base, rows)
  {
    if |slice| < |stores| {
      WalkOfSteadySlice(stores, base, slice);
    }
  }

  /** A walk of each of the three tables that may make one request more than there are rows ends and
      lists exactly the rows of these connections, in OID order. */
  ghost predicate WalksList(stores: seq<OidMap>, root: OID, cs: seq<Connection>) {
    var t := TablesOf(root, cs);
    && (|t.connections| < |stores| ==>
          MovingWalkLists(stores, ConnectionBase(root), ConnectionRows(root, cs)))
    && (|t.buckets| < |stores| ==> MovingWalkLists(stores, BucketBase(root), BucketRows(root, cs)))
    && (|t.bandwidths| < |stores| ==>
          MovingWalkLists(stores, BandwidthBase(root), BandwidthRows(root, cs)))
  }

  lemma SteadyTablesAreWalked(stores: seq<OidMap>, root: OID, cs: seq<Connection>)
    requires forall k | 0 <= k < |stores| :: SlicesOf(stores[k], root) == TablesOf(root, cs)
    ensures WalksList(stores, root, cs)
  {
    var t := TablesOf(root, cs);
    RowsAreKeys(root, cs);
    forall k | 0 <= k < |stores|
      ensures Slice(stores[k], ConnectionBase(root)) == t.connections && Slice(stores[k], BucketBase(root)) == t.buckets
      ensures Slice(stores[k], BandwidthBase(root)) == t.bandwidths
    {
      assert SlicesOf(stores[k], root) == t;
    }
    MovingWalkOfSlice(stores, ConnectionBase(root), t.connections, ConnectionRows(root, cs));
    MovingWalkOfSlice(stores, BucketBase(root), t.buckets, BucketRows(root, cs));
    MovingWalkOfSlice(stores, BandwidthBase(root), t.bandwidths, BandwidthRows(root, cs));
  }

  /** Walks that interleave with messages: once Astaire's message is stored, while the messages of all
      other handlers keep arriving, with requests answered between any two of their writes, a walk of
      each of its tables ends and lists exactly the rows sent, in OID order. */
  lemma WalkAmongOtherMessages(lib: Library, w: Writer, hs: set<Handler>, ms: seq<Message>, n: nat,
                               root: OID, cs: seq<Connection>, at: seq<nat>, stores: seq<OidMap>)
    requires Antichain(AllSlots(hs)) && Acceptable(lib, hs, ms) && LastAstaireMessage(ms, n, root)
    requires ms[n].fields == ["astaire_connections", "OK"] + EncodeAll(w, cs)
    requires Understands(lib, w) && AllSendable(lib, w, cs)
    requires Answer(lib, ms, at, stores) && forall t | 0 <= t < |at| :: StartOf(lib, ms, n) + 3 <= at[t]
    ensures WalksList(stores, root, cs)
  {
    SentTables(lib, w, root, cs);
    forall k | 0 <= k < |stores|
      ensures SlicesOf(stores[k], root) == TablesOf(root, cs)
    {
      LastAstaireMessageStands(lib, hs, ms, n, root, at[k]);
    }
    SteadyTablesAreWalked(stores, root, cs);
  }

  // ---- the handlers' methods ----

  lemma ApplyOne(m: OidMap, w: Write)
    ensures ApplyAll(m, [w]) == Apply(m, w)
  {
    assert Front([w]) == [];
  }

  /** IPCountStatHandler::handle: both iterators advance by one field per turn. */
  method HandleIpCount(tree: OIDTree, lib: Library, root: OID, msgs: seq<string>)
    requires |msgs| >= 2
    modifies tree
    ensures tree.oidmap == ApplyAll(old(tree.oidmap), WritesOf(lib, IpCount(root), msgs))
  {
    var subtree: OidMap := map[];
    var ip, val := 2, 3;
    while ip != |msgs| && val != |msgs|
      invariant val == ip + 1 && 2 <= ip <= |msgs|
      invariant ip == |msgs| ==> |msgs| == 2
      invariant subtree == Counts(lib, root, msgs, 1, if ip == |msgs| then 2 else ip)
      decreases |msgs| - ip
    {
      var addr := lib.pton(msgs[ip]);
      if addr.IsValid() {
        var row := root + [1, 3];
        row := row + addr.ToOid();
        subtree := subtree[row := lib.atoi(msgs[val])];
      }
      ip, val := ip + 1, val + 1;
    }
    tree.ReplaceSubtree(root, subtree);
    ApplyOne(old(tree.oidmap), Replace(root, subtree));
  }

  /** BareStatHandler::handle: too short a message changes nothing. */
  method HandleBare(tree: OIDTree, lib: Library, root: OID, msgs: seq<string>)
    requires |msgs| >= 2
    modifies tree
    ensures tree.oidmap == ApplyAll(old(tree.oidmap), WritesOf(lib, Bare(root), msgs))
  {
    if |msgs| >= 3 {
      tree.SetValue(root, lib.atoi(msgs[2]));
      ApplyOne(old(tree.oidmap), Set(root, lib.atoi(msgs[2])));
    }
  }

  // Clearing a subtree is replacing it by nothing.
  lemma RemovalIsReplacement(m: OidMap, root: OID)
    ensures Removed(m, root) == ApplyAll(m, [Replace(root, map[])])
  {
    ApplyOne(m, Replace(root, map[]));
    assert map[] + Removed(m, root) == Removed(m, root);
  }

  /** SingleNumberStatHandler::handle. */
  method HandleSingleNumber(tree: OIDTree, lib: Library, root: OID, msgs: seq<string>)
    requires |msgs| >= 2
    modifies tree
    ensures tree.oidmap == ApplyAll(old(tree.oidmap), WritesOf(lib, SingleNumber(root), msgs))
  {
    if |msgs| >= 3 {
      var subtree := map[root + [0] := lib.atoi(msgs[2])];
      tree.ReplaceSubtree(root, subtree);
      ApplyOne(old(tree.oidmap), Replace(root, subtree));
    } else {
      tree.RemoveSubtree(root);
      RemovalIsReplacement(old(tree.oidmap), root);
    }
  }

  /** SingleNumberWithScopeStatHandler::handle. */
  method HandleSingleNumberWithScope(tree: OIDTree, lib: Library, root: OID, msgs: seq<string>)
    requires |msgs| >= 2
    modifies tree
    ensures tree.oidmap == ApplyAll(old(tree.oidmap), WritesOf(lib, SingleNumberWithScope(root), msgs))
  {
    if |msgs| >= 3 {
      var subtree := map[root + [1, 2] := lib.atoi(msgs[2])];
      tree.ReplaceSubtree(root, subtree);
      ApplyOne(old(tree.oidmap), Replace(root, subtree));
    } else {
      tree.RemoveSubtree(root);
      RemovalIsReplacement(old(tree.oidmap), root);
    }
  }

  /** AccumulatedWithCountStatHandler::handle. */
  method HandleAccumulatedWithCount(tree: OIDTree, lib: Library, root: OID, msgs: seq<string>)
    requires |msgs| >= 2
    modifies tree
    ensures tree.oidmap == ApplyAll(old(tree.oidmap), WritesOf(lib, AccumulatedWithCount(root), msgs))
  {
    if |msgs| >= 7 {
      var average, variance, hwm, lwm, count := root + [1, 2], root + [1, 3], root + [1, 4],
                                                root + [1, 5], root + [1, 6];
      var subtree := map[average := lib.atoi(msgs[2]), variance := lib.atoi(msgs[3]),
                         hwm := lib.atoi(msgs[5]), lwm := lib.atoi(msgs[4]), count := lib.atoi(msgs[6])];
      tree.ReplaceSubtree(root, subtree);
      ApplyOne(old(tree.oidmap), Replace(root, subtree));
    } else {
      tree.RemoveSubtree(root);
      RemovalIsReplacement(old(tree.oidmap), root);
    }
  }

  lemma ApplyUpTo(m: OidMap, ws: seq<Write>, n: nat)
    requires n < |ws|
    ensures ApplyAll(m, ws[..n + 1]) == Apply(ApplyAll(m, ws[..n]), ws[n])
  {
    assert Front(ws[..n + 1]) == ws[..n];
  }

  lemma FiveWrites(m: OidMap, ws: seq<Write>)
    requires |ws| == 5
    ensures ApplyAll(m, ws) == Apply(Apply(Apply(Apply(Apply(m, ws[0]), ws[1]), ws[2]), ws[3]), ws[4])
  {
    ApplyUpTo(m, ws, 0);
    ApplyUpTo(m, ws, 1);
    ApplyUpTo(m, ws, 2);
    ApplyUpTo(m, ws, 3);
    ApplyUpTo(m, ws, 4);
    assert ws[..5] == ws && ws[..0] == [];
  }

  /** AstaireGlobalStatHandler::handle. */
  method HandleAstaireGlobal(tree: OIDTree, lib: Library, root: OID, msgs: seq<string>)
    requires |msgs| >= 2
    modifies tree
    ensures tree.oidmap == ApplyAll(old(tree.oidmap), WritesOf(lib, AstaireGlobal(root), msgs))
  {
    if |msgs| >= 7 {
      tree.SetValue(root + [1, 0], lib.atoi(msgs[2]));
      tree.SetValue(root + [2, 0], lib.atoi(msgs[3]));
      tree.SetValue(root + [3, 0], lib.atoi(msgs[4]));
      tree.SetValue(root + [4, 0], lib.atoi(msgs[5]));
      tree.SetValue(root + [5, 1, 2, 1], lib.atoi(msgs[6]));
    } else {
      tree.RemoveKey(root + [1, 0]);
      tree.RemoveKey(root + [2, 0]);
      tree.RemoveKey(root + [3, 0]);
      tree.RemoveKey(root + [4, 0]);
      tree.RemoveKey(root + [5, 1, 2, 1]);
    }
    FiveWrites(old(tree.oidmap), GlobalWrites(lib, root, msgs));
  }

  lemma ThreeWrites(m: OidMap, ws: seq<Write>)
    requires |ws| == 3
    ensures ApplyAll(m, ws) == Apply(Apply(Apply(m, ws[0]), ws[1]), ws[2])
  {
    ApplyUpTo(m, ws, 0);
    ApplyUpTo(m, ws, 1);
    ApplyUpTo(m, ws, 2);
    assert ws[..3] == ws && ws[..0] == [];
  }

  /** AstaireConnectionStatHandler::handle. */
  method HandleAstaireConnections(tree: OIDTree, lib: Library, root: OID, msgs: seq<string>)
    requires |msgs| >= 2 && EndsFit(lib, msgs, 2)
    modifies tree
    ensures tree.oidmap == ApplyAll(old(tree.oidmap), WritesOf(lib, AstaireConnections(root), msgs))
  {
    var t := ParseMessage(lib, msgs, root);
    tree.ReplaceSubtree(ConnectionBase(root), t.connections);
    tree.ReplaceSubtree(BucketBase(root), t.buckets);
    tree.ReplaceSubtree(BandwidthBase(root), t.bandwidths);
    ThreeWrites(old(tree.oidmap), WritesOf(lib, AstaireConnections(root), msgs));
  }

  // ---- the handlers this repository registers ----

  /** The arc under which all Clearwater statistics live. */
  const STATS_ROOT: OID := [1, 2, 826, 0, 1, 1578918, 9]

  predicate Tail3(t: OID, a: nat, b: nat) { |t| == 3 && t[0] == a && t[1] == b }

  predicate Tail5(t: OID, a: nat, b: nat, c: nat, d: nat) {
    |t| == 5 && t[0] == a && t[1] == b && t[2] == c && t[3] == d
  }

  // Where below the base the handlers of single values are registered: call diversion, Memento AS
  // calls, Memento requests and authentication.
  predicate BareTail(t: OID) {
    || (|t| == 4 && t[0] == 7 && t[1] == 1 && t[2] == 1 && 2 <= t[3] <= 7)
    || (Tail5(t, 8, 1, 1, 1) && 2 <= t[4] <= 4)
    || (Tail5(t, 8, 2, 1, 1) && 2 <= t[4] <= 3)
    || (Tail5(t, 8, 3, 2, 1) && 2 <= t[4] <= 6)
  }

  // And the averages with counts of Memento AS and Memento.
  predicate AccumulatedTail(t: OID) {
    (Tail3(t, 8, 1) && 2 <= t[2] <= 3) || (Tail3(t, 8, 2) && 2 <= t[2] <= 5)
  }

  /** The handlers the repository registers, as if they all shared one store. */
  predicate Registered(base: OID, h: Handler) {
    match h
    case Bare(root) => base <= root && BareTail(root[|base|..])
    case AccumulatedWithCount(root) => base <= root && AccumulatedTail(root[|base|..])
    case AstaireGlobal(root) => root == base + [9]
    case AstaireConnections(root) => root == base + [9]
    case _ => false
  }

  lemma BareTailsAre(t: OID)
    ensures BareTail(t) <==>
            t in [[7, 1, 1, 2], [7, 1, 1, 3], [7, 1, 1, 4], [7, 1, 1, 5], [7, 1, 1, 6], [7, 1, 1, 7],
                  [8, 1, 1, 1, 2], [8, 1, 1, 1, 3], [8, 1, 1, 1, 4], [8, 2, 1, 1, 2], [8, 2, 1, 1, 3],
                  [8, 3, 2, 1, 2], [8, 3, 2, 1, 3], [8, 3, 2, 1, 4], [8, 3, 2, 1, 5], [8, 3, 2, 1, 6]]
  {
    if |t| == 4 {
      assert t == [t[0], t[1], t[2], t[3]];
    } else if |t| == 5 {
      assert t == [t[0], t[1], t[2], t[3], t[4]];
    }
  }

  lemma AccumulatedTailsAre(t: OID)
    ensures AccumulatedTail(t) <==> t in [[8, 1, 2], [8, 1, 3], [8, 2, 2], [8, 2, 3], [8, 2, 4], [8, 2, 5]]
  {
    if |t| == 3 {
      assert t == [t[0], t[1], t[2]];
    }
  }

  predicate AstaireTail(t: OID) {
    || (|t| == 3 && t[0] == 9 && 1 <= t[1] <= 4 && t[2] == 0)
    || (Tail5(t, 9, 5, 1, 2) && t[4] == 1)
    || (|t| == 3 && t[0] == 9 && 6 <= t[1] <= 8 && t[2] == 1)
  }

  predicate SlotTail(t: OID) { BareTail(t) || AccumulatedTail(t) || AstaireTail(t) }

  predicate RegisteredSlot(base: OID, s: OID) { base <= s && SlotTail(s[|base|..]) }

  lemma SlotTailsDoNotNest(a: OID, b: OID)
    requires SlotTail(a) && SlotTail(b) && a <= b
    ensures a == b
  {
    assert a == b[..|a|];
  }

  lemma SlotsDoNotNest(base: OID, a: OID, b: OID)
    requires RegisteredSlot(base, a) && RegisteredSlot(base, b) && a <= b
    ensures a == b
  {
    assert a == base + a[|base|..] && b == base + b[|base|..];
    assert a[|base|..] <= b[|base|..];
    SlotTailsDoNotNest(a[|base|..], b[|base|..]);
  }

  lemma SlotsHaveTails(base: OID, h: Handler, s: OID)
    requires Registered(base, h) && s in SlotsOf(h)
    ensures RegisteredSlot(base, s)
  {
    var slots := SlotsOf(h);
    var n :| 0 <= n < |slots| && slots[n] == s;
    if h.AstaireGlobal? || h.AstaireConnections? {
      assert s[|base|..] == [9] + s[|base| + 1..];
    }
  }

  lemma AllSlotsRegistered(base: OID, hs: set<Handler>, s: OID)
    requires (forall h | h in hs :: Registered(base, h)) && s in AllSlots(hs)
    ensures RegisteredSlot(base, s)
  {
    var h :| h in hs && s in SlotsOf(h);
    SlotsHaveTails(base, h, s);
  }

  /** No slot of the registered handlers is a prefix of another, so StoreShowsEachHandlersData holds
      for every set of them. */
  lemma RegisteredHandlersAreCompatible(base: OID, hs: set<Handler>)
    requires forall h | h in hs :: Registered(base, h)
    ensures Antichain(AllSlots(hs))
  {
    var slots := AllSlots(hs);
    forall a, b | a in slots && b in slots && a <= b
      ensures a == b
    {
      AllSlotsRegistered(base, hs, a);
      AllSlotsRegistered(base, hs, b);
      SlotsDoNotNest(base, a, b);
    }
  }

  /** So, in every run of the handlers registered below STATS_ROOT, the store shows each one's data. */
  lemma RegisteredHandlersShareTheStore(lib: Library, hs: set<Handler>, ms: seq<Message>)
    requires (forall h | h in hs :: Registered(STATS_ROOT, h)) && Acceptable(lib, hs, ms)
    ensures var store := ApplyAll(map[], AllWrites(lib, ms));
            && UnderSlots(AllSlots(hs), store)
            && forall s | s in AllSlots(hs) ::
                 Slice(store, s) == Latest(AllWrites(lib, ms), s) && !HasAncestor(store, s)
  {
    RegisteredHandlersAreCompatible(STATS_ROOT, hs);
    StoreShowsEachHandlersData(lib, hs, ms);
  }

  /** And with decimal numbers, the modelled atoi and the registered handlers: what Astaire sends is
      served below STATS_ROOT. */
  lemma RegisteredAstaireIsServed(pton: string -> InetAddr, w: Writer, hs: set<Handler>, ms: seq<Message>, n: nat,
                                  cs: seq<Connection>)
    requires forall s :: pton(s).WellFormed()
    requires forall v | Printable(v) :: w.show(v) == Show(v)
    requires (forall h | h in hs :: Registered(STATS_ROOT, h)) && Acceptable(Library(pton, Atoi), hs, ms)
    requires LastAstaireMessage(ms, n, STATS_ROOT + [9])
    requires ms[n].fields == ["astaire_connections", "OK"] + EncodeAll(w, cs)
    requires AllSendable(Library(pton, Atoi), w, cs)
    ensures Serves(ApplyAll(map[], AllWrites(Library(pton, Atoi), ms)), STATS_ROOT + [9], cs)
  {
    RegisteredHandlersAreCompatible(STATS_ROOT, hs);
    AtoiIsOk(pton);
    DecimalsAreUnderstood(pton, w);
    WhatAstaireSendsIsServed(Library(pton, Atoi), w, hs, ms, n, STATS_ROOT + [9], cs);
  }
}
