/**
 * The two reassembly tables of the Cell Broadcast dissector
 * (gsm_cbs_page_table and gsm_cbs_message_table) and the one call made into
 * them, fragment_add_check (epan/dissectors/packet-cell_broadcast.c:143-144,
 * 164-168, 359-362). epan/reassemble.c is not part of this model: the store
 * below follows only the call's arguments (key, offset, length, more pages)
 * and the completion rule is an assumption, not derived behaviour: a message
 * is complete once the page sent with "no more pages" is known and every
 * 88-octet slot from the first one up to that page's slot is filled.
 */
module CbsReassembly {
  import opened Wrappers
  import opened Octets
  import opened CbsFields

  /** A frame (input unit) number. */
  type Frame = nat

  /** The pages of one message received so far, by fragment offset. */
  type Slots = map<nat, seq<Byte>>

  /** One partially reassembled message: its pages, the offset of its final page once seen, its frames. */
  datatype Record = Record(slots: Slots, finalOffset: Option<nat>, frames: set<Frame>)

  /** Both tables, plus the keys whose pages were flagged as conflicting or as having several final pages. */
  datatype Store = Store(
    fragments: map<U32, Record>,
    reassembled: map<(Frame, U32), Reassembled>,
    conflicts: set<U32>,
    multipleTails: set<U32>)

  /** A reassembled message and the frame whose page completed it. */
  datatype Reassembled = Reassembled(bytes: seq<Byte>, reassembledIn: Frame)

  /** What fragment_add_check returns: the new tables and the message, when this call completed it or replays it. */
  datatype Added = Added(store: Store, message: Option<Reassembled>)

  /** The tables after reassembly_init: both empty. */
  const EMPTY: Store := Store(map[], map[], {}, {})

  /** Every stored page holds exactly one slot's worth of octets. */
  predicate WellFormed(st: Store)
  {
    forall key, o :: key in st.fragments && o in st.fragments[key].slots ==>
      |st.fragments[key].slots[o]| == PAGE_SIZE
  }

  /** A page is stored at its offset unless that offset is already taken: the first writer's octets are kept. */
  function StorePage(slots: Slots, offset: nat, bytes: seq<Byte>): (r: Slots)
    ensures offset in r && r.Keys == slots.Keys + {offset}
    ensures forall o :: o in slots ==> r[o] == slots[o]
    ensures offset !in slots ==> r[offset] == bytes
  {
    if offset in slots then slots else slots[offset := bytes]
  }

  /** The number of pages of a message whose final page sits at `finalOffset`. */
  function PageCount(finalOffset: nat): nat
  {
    finalOffset / PAGE_SIZE + 1
  }

  /** The assumed completion rule: every slot up to the final page's is filled. */
  predicate Complete(slots: Slots, finalOffset: nat)
  {
    forall k :: 0 <= k < PageCount(finalOffset) ==> k * PAGE_SIZE in slots
  }

  /** The first `n` slots' octets, concatenated in offset order. */
  function Assemble(slots: Slots, n: nat): seq<Byte>
    requires forall k :: 0 <= k < n ==> k * PAGE_SIZE in slots
  {
    if n == 0 then [] else Assemble(slots, n - 1) + slots[(n - 1) * PAGE_SIZE]
  }

  /** The reassembled message is byte-exact: its k-th slot-sized block is the k-th page. */
  lemma {:induction false} AssembleLayout(slots: Slots, n: nat, k: nat, j: nat)
    requires forall i :: 0 <= i < n ==> i * PAGE_SIZE in slots && |slots[i * PAGE_SIZE]| == PAGE_SIZE
    ensures |Assemble(slots, n)| == n * PAGE_SIZE
    ensures k < n && j < PAGE_SIZE ==> Assemble(slots, n)[k * PAGE_SIZE + j] == slots[k * PAGE_SIZE][j]
  {
    if n > 0 {
      AssembleLayout(slots, n - 1, k, j);
      if k < n - 1 && j < PAGE_SIZE {
        assert k * PAGE_SIZE + j < (n - 1) * PAGE_SIZE;
      }
    }
  }

  /** The entries of the message table for every frame that contributed a page. */
  function ReassembledIn(frames: set<Frame>, key: U32, message: Reassembled): (m: map<(Frame, U32), Reassembled>)
    ensures forall f :: f in frames ==> (f, key) in m && m[(f, key)] == message
    ensures forall p :: p in m ==> p.1 == key && p.0 in frames
  {
    map f | f in frames :: (f, key) := message
  }

  /**
   * fragment_add_check for one page (the page's buffer from offset 0). On a
   * revisit (`visited`) only the message table is consulted. Otherwise the
   * page's first `length` octets go into its key's record; a page shorter
   * than that is refused and nothing changes. When the record becomes
   * complete it leaves the page table and the message is entered in the
   * message table for every frame that contributed to it.
   */
  function AddCheck(st: Store, frame: Frame, visited: bool, page: seq<Byte>, call: FragmentCall): (r: Added)
    requires call.length == PAGE_SIZE
    ensures visited ==> r.store == st
    ensures visited ==> r.message == if (frame, call.key) in st.reassembled
                                     then Some(st.reassembled[(frame, call.key)]) else None
    ensures !visited && |page| < call.length ==> r == Added(st, None)
  {
    var key := call.key;
    if visited then
      Added(st, if (frame, key) in st.reassembled then Some(st.reassembled[(frame, key)]) else None)
    else if |page| < call.length then
      Added(st, None)
    else
      var bytes := page[..call.length];
      var rec := if key in st.fragments then st.fragments[key] else Record(map[], None, {});
      var conflict := call.offset in rec.slots && rec.slots[call.offset] != bytes;
      var extraTail := !call.morePages && rec.finalOffset.Some? && rec.finalOffset.value != call.offset;
      var slots := StorePage(rec.slots, call.offset, bytes);
      var fin := if rec.finalOffset.Some? then rec.finalOffset
                 else if !call.morePages then Some(call.offset) else None;
      var frames := rec.frames + {frame};
      var conflicts := if conflict then st.conflicts + {key} else st.conflicts;
      var tails := if extraTail then st.multipleTails + {key} else st.multipleTails;
      if fin.Some? && Complete(slots, fin.value) then
        var message := Reassembled(Assemble(slots, PageCount(fin.value)), frame);
        Added(Store(st.fragments - {key}, st.reassembled + ReassembledIn(frames, key, message), conflicts, tails),
              Some(message))
      else
        Added(Store(st.fragments[key := Record(slots, fin, frames)], st.reassembled, conflicts, tails), None)
  }

  /** Every page stored by AddCheck has slot size, so the invariant is kept. */
  lemma {:induction false} AddCheckKeepsWellFormed(st: Store, frame: Frame, visited: bool, page: seq<Byte>, call: FragmentCall)
    requires call.length == PAGE_SIZE && WellFormed(st)
    ensures WellFormed(AddCheck(st, frame, visited, page, call).store)
  {
    var r := AddCheck(st, frame, visited, page, call);
    if !visited && |page| >= call.length {
      var key := call.key;
      var rec := if key in st.fragments then st.fragments[key] else Record(map[], None, {});
      var slots := StorePage(rec.slots, call.offset, page[..call.length]);
      assert forall o :: o in slots ==> |slots[o]| == PAGE_SIZE;
      forall k, o | k in r.store.fragments && o in r.store.fragments[k].slots
        ensures |r.store.fragments[k].slots[o]| == PAGE_SIZE
      {
        if k != key {
          assert r.store.fragments[k] == st.fragments[k];
        }
      }
    }
  }

  /**
   * A message is produced on a first pass exactly when the page completes its
   * record; it is then the record's pages in offset order, one slot each.
   */
  lemma {:induction false} MessageIsAssembledPages(st: Store, frame: Frame, page: seq<Byte>, call: FragmentCall)
    requires call.length == PAGE_SIZE && WellFormed(st) && |page| >= PAGE_SIZE
    ensures
      var rec := if call.key in st.fragments then st.fragments[call.key] else Record(map[], None, {});
      var slots := StorePage(rec.slots, call.offset, page[..PAGE_SIZE]);
      var fin := if rec.finalOffset.Some? then rec.finalOffset
                 else if !call.morePages then Some(call.offset) else None;
      var r := AddCheck(st, frame, false, page, call);
      && (r.message.Some? <==> fin.Some? && Complete(slots, fin.value))
      && (r.message.Some? ==>
            && r.message.value.reassembledIn == frame
            && |r.message.value.bytes| == PageCount(fin.value) * PAGE_SIZE
            && call.key !in r.store.fragments
            && forall k, j :: 0 <= k < PageCount(fin.value) && 0 <= j < PAGE_SIZE ==>
                 r.message.value.bytes[k * PAGE_SIZE + j] == slots[k * PAGE_SIZE][j])
  {
    var rec := if call.key in st.fragments then st.fragments[call.key] else Record(map[], None, {});
    var slots := StorePage(rec.slots, call.offset, page[..PAGE_SIZE]);
    var fin := if rec.finalOffset.Some? then rec.finalOffset
               else if !call.morePages then Some(call.offset) else None;
    assert forall o :: o in slots ==> |slots[o]| == PAGE_SIZE;
    if fin.Some? && Complete(slots, fin.value) {
      var n := PageCount(fin.value);
      AssembleLayout(slots, n, 0, 0);
      forall k, j | 0 <= k < n && 0 <= j < PAGE_SIZE
        ensures Assemble(slots, n)[k * PAGE_SIZE + j] == slots[k * PAGE_SIZE][j]
      {
        AssembleLayout(slots, n, k, j);
      }
    }
  }

  /**
   * Idempotent replay: revisiting any frame that contributed to a message,
   * after the completing call, returns that same message and changes nothing.
   */
  lemma {:induction false} ReplayReturnsMessage(st: Store, frame: Frame, page: seq<Byte>, call: FragmentCall,
                             other: Frame, page': seq<Byte>)
    requires call.length == PAGE_SIZE
    requires AddCheck(st, frame, false, page, call).message.Some?
    requires other == frame || (call.key in st.fragments && other in st.fragments[call.key].frames)
    ensures
      var r := AddCheck(st, frame, false, page, call);
      var replay := AddCheck(r.store, other, true, page', call);
      replay.message == r.message && replay.store == r.store
  {
  }

  /** Two pages at one offset: differing octets flag a conflict, identical octets are a benign duplicate. */
  lemma {:induction false} DuplicatePage(st: Store, frame: Frame, page: seq<Byte>, call: FragmentCall)
    requires call.length == PAGE_SIZE && |page| >= PAGE_SIZE
    requires call.key in st.fragments && call.offset in st.fragments[call.key].slots
    ensures
      var r := AddCheck(st, frame, false, page, call);
      var stored := st.fragments[call.key].slots[call.offset];
      && (call.key in r.store.conflicts <==> call.key in st.conflicts || stored != page[..PAGE_SIZE])
      && (call.key in r.store.fragments ==> r.store.fragments[call.key].slots[call.offset] == stored)
  {
  }

  /**
   * process_reassembled_data, as this model assumes it: the reassembled
   * buffer is handed back only in the frame the message was reassembled in;
   * other frames (and calls that completed nothing) get no buffer.
   */
  function ProcessReassembled(frame: Frame, added: Option<Reassembled>): (r: Option<seq<Byte>>)
    ensures r.Some? <==> added.Some? && added.value.reassembledIn == frame
    ensures r.Some? ==> r.value == added.value.bytes
  {
    if added.Some? && added.value.reassembledIn == frame then Some(added.value.bytes) else None
  }

  // ---------------------------------------------------------------------------
  // Arrival order

  /** The slots after storing a sequence of (offset, octets) pages one by one. */
  function StoreAll(slots: Slots, pages: seq<(nat, seq<Byte>)>): Slots
    decreases |pages|
  {
    if pages == [] then slots else StoreAll(StorePage(slots, pages[0].0, pages[0].1), pages[1..])
  }

  predicate DistinctOffsets(pages: seq<(nat, seq<Byte>)>)
  {
    forall i, j :: 0 <= i < j < |pages| ==> pages[i].0 != pages[j].0
  }

  /** The pages of the sequence as a map from offset to octets. */
  function PageMap(pages: seq<(nat, seq<Byte>)>): (m: Slots)
    requires DistinctOffsets(pages)
    ensures m.Keys == set p | p in pages :: p.0
    ensures forall p :: p in pages ==> m[p.0] == p.1
  {
    if pages == [] then map[]
    else
      RestDistinct(pages);
      var rest := PageMap(pages[1..]);
      PageMapStep(pages, rest);
      rest[pages[0].0 := pages[0].1]
  }

  /** Adding the first page to the map of the rest gives the map of all the pages. */
  lemma {:induction false} PageMapStep(pages: seq<(nat, seq<Byte>)>, rest: Slots)
    requires DistinctOffsets(pages) && pages != []
    requires rest.Keys == set p | p in pages[1..] :: p.0
    requires forall p :: p in pages[1..] ==> rest[p.0] == p.1
    ensures rest[pages[0].0 := pages[0].1].Keys == set p | p in pages :: p.0
    ensures forall p :: p in pages ==> rest[pages[0].0 := pages[0].1][p.0] == p.1
  {
    RestDistinct(pages);
    assert forall p :: p in pages ==> p == pages[0] || p in pages[1..];
  }

  /** Dropping the first page keeps the offsets distinct and the rest's offsets away from it. */
  lemma {:induction false} RestDistinct(pages: seq<(nat, seq<Byte>)>)
    requires DistinctOffsets(pages) && pages != []
    ensures DistinctOffsets(pages[1..])
    ensures forall p :: p in pages[1..] ==> p.0 != pages[0].0 && p in pages
  {
    forall i, j | 0 <= i < j < |pages[1..]| ensures pages[1..][i].0 != pages[1..][j].0 {
      assert pages[1..][i] == pages[i + 1] && pages[1..][j] == pages[j + 1];
    }
    forall p | p in pages[1..] ensures p.0 != pages[0].0 && p in pages {
      var i :| 0 <= i < |pages[1..]| && pages[1..][i] == p;
      assert pages[i + 1] == p;
    }
  }

  lemma {:induction false} UnionShift(slots: Slots, o: nat, v: seq<Byte>, m: Slots)
    requires o !in m
    ensures slots[o := v] + m == slots + m[o := v]
  {
  }

  /** Storing pages with distinct, fresh offsets adds exactly their map. */
  lemma {:induction false} StoreAllIsUnion(slots: Slots, pages: seq<(nat, seq<Byte>)>)
    requires DistinctOffsets(pages)
    requires forall p :: p in pages ==> p.0 !in slots
    ensures StoreAll(slots, pages) == slots + PageMap(pages)
    decreases |pages|
  {
    if pages != [] {
      var o, v := pages[0].0, pages[0].1;
      StoreFirst(slots, pages);
      StoreAllIsUnion(slots[o := v], pages[1..]);
      UnionShift(slots, o, v, PageMap(pages[1..]));
    }
  }

  /** One step of StoreAllIsUnion: the first page is stored, and the rest stay distinct and fresh. */
  lemma {:induction false} StoreFirst(slots: Slots, pages: seq<(nat, seq<Byte>)>)
    requires DistinctOffsets(pages) && pages != []
    requires forall p :: p in pages ==> p.0 !in slots
    ensures DistinctOffsets(pages[1..])
    ensures forall p :: p in pages[1..] ==> p.0 !in slots[pages[0].0 := pages[0].1]
    ensures StoreAll(slots, pages) == StoreAll(slots[pages[0].0 := pages[0].1], pages[1..])
    ensures pages[0].0 !in PageMap(pages[1..])
    ensures PageMap(pages) == PageMap(pages[1..])[pages[0].0 := pages[0].1]
  {
    RestDistinct(pages);
    assert StorePage(slots, pages[0].0, pages[0].1) == slots[pages[0].0 := pages[0].1];
  }

  /** Sequences with the same multiset hold the same pages. */
  lemma {:induction false} SameElements(pages: seq<(nat, seq<Byte>)>, reordered: seq<(nat, seq<Byte>)>)
    requires multiset(pages) == multiset(reordered)
    ensures forall p :: p in pages <==> p in reordered
  {
    forall p ensures p in pages <==> p in reordered {
      assert p in pages <==> p in multiset(pages);
      assert p in reordered <==> p in multiset(reordered);
    }
  }

  /** Pages with distinct offsets are distinct values: each occurs at most once. */
  lemma {:induction false} DistinctOnce(pages: seq<(nat, seq<Byte>)>, x: (nat, seq<Byte>))
    requires DistinctOffsets(pages)
    ensures multiset(pages)[x] <= 1
    decreases |pages|
  {
    if pages != [] {
      RestDistinct(pages);
      DistinctOnce(pages[1..], x);
      assert pages == [pages[0]] + pages[1..];
      if x == pages[0] {
        assert x !in pages[1..];
      }
    }
  }

  /** A reordering of pages with distinct offsets has distinct offsets too. */
  lemma {:induction false} ReorderedDistinct(pages: seq<(nat, seq<Byte>)>, reordered: seq<(nat, seq<Byte>)>)
    requires multiset(pages) == multiset(reordered) && DistinctOffsets(pages)
    ensures DistinctOffsets(reordered)
  {
    SameElements(pages, reordered);
    forall i, j | 0 <= i < j < |reordered| ensures reordered[i].0 != reordered[j].0 {
      var x, y := reordered[i], reordered[j];
      assert x in pages && y in pages;
      if x == y {
        assert reordered == reordered[..j] + reordered[j..];
        assert x in reordered[..j] && x in reordered[j..];
        assert multiset(reordered)[x] == multiset(reordered[..j])[x] + multiset(reordered[j..])[x];
        DistinctOnce(pages, x);
      } else {
        var a :| 0 <= a < |pages| && pages[a] == x;
        var b :| 0 <= b < |pages| && pages[b] == y;
        assert a != b;
      }
    }
  }

  /** Two sequences holding the same pages with distinct offsets have the same map. */
  lemma {:induction false} SamePageMap(pages: seq<(nat, seq<Byte>)>, reordered: seq<(nat, seq<Byte>)>)
    requires DistinctOffsets(pages) && DistinctOffsets(reordered)
    requires forall p :: p in pages <==> p in reordered
    ensures PageMap(pages) == PageMap(reordered)
  {
    var m, n := PageMap(pages), PageMap(reordered);
    assert m.Keys == n.Keys;
    forall o | o in m.Keys ensures m[o] == n[o] {
      var p :| p in pages && p.0 == o;
      assert p in reordered;
    }
  }

  /**
   * Storing pages with distinct, fresh offsets leaves the same slots in any
   * arrival order: every reordering of the pages stores the same message.
   */
  lemma {:induction false} StoreAllAnyOrder(slots: Slots, pages: seq<(nat, seq<Byte>)>, reordered: seq<(nat, seq<Byte>)>)
    requires multiset(pages) == multiset(reordered)
    requires DistinctOffsets(pages)
    requires forall p :: p in pages ==> p.0 !in slots
    ensures StoreAll(slots, pages) == StoreAll(slots, reordered)
  {
    SameElements(pages, reordered);
    ReorderedDistinct(pages, reordered);
    StoreAllIsUnion(slots, pages);
    StoreAllIsUnion(slots, reordered);
    SamePageMap(pages, reordered);
  }

  /** A two-page message is reassembled to the two pages' octets whichever page arrives first. */
  lemma {:induction false} TwoPagesEitherOrder(st: Store, key: U32, first: seq<Byte>, second: seq<Byte>, f1: Frame, f2: Frame)
    requires key !in st.fragments && |first| == PAGE_SIZE && |second| == PAGE_SIZE
    ensures
      var c1 := FragmentCall(key, 0, PAGE_SIZE, true);
      var c2 := FragmentCall(key, PAGE_SIZE, PAGE_SIZE, false);
      var a := AddCheck(st, f1, false, first, c1);
      var b := AddCheck(st, f2, false, second, c2);
      && a.message == None && b.message == None
      && AddCheck(a.store, f2, false, second, c2).message == Some(Reassembled(first + second, f2))
      && AddCheck(b.store, f1, false, first, c1).message == Some(Reassembled(first + second, f1))
  {
    TwoPagesInOrder(st, key, first, second, f1, f2);
    TwoPagesReversed(st, key, first, second, f1, f2);
  }

  /** The two pages of a two-page message, stored in one slot map. */
  lemma {:induction false} TwoPagesAssemble(first: seq<Byte>, second: seq<Byte>)
    requires |first| == PAGE_SIZE && |second| == PAGE_SIZE
    ensures PageCount(PAGE_SIZE) == 2
    ensures Complete(map[0 := first, PAGE_SIZE := second], PAGE_SIZE)
    ensures Assemble(map[0 := first, PAGE_SIZE := second], 2) == first + second
    ensures first[..PAGE_SIZE] == first && second[..PAGE_SIZE] == second
  {
    var both: Slots := map[0 := first, PAGE_SIZE := second];
    assert PageCount(PAGE_SIZE) == 2;
    assert Complete(both, PAGE_SIZE);
    assert Assemble(both, 2) == Assemble(both, 1) + second;
    assert Assemble(both, 1) == first;
  }

  /** The first page, then the second: the second completes the message. */
  lemma {:induction false} TwoPagesInOrder(st: Store, key: U32, first: seq<Byte>, second: seq<Byte>, f1: Frame, f2: Frame)
    requires key !in st.fragments && |first| == PAGE_SIZE && |second| == PAGE_SIZE
    ensures
      var c1 := FragmentCall(key, 0, PAGE_SIZE, true);
      var c2 := FragmentCall(key, PAGE_SIZE, PAGE_SIZE, false);
      var a := AddCheck(st, f1, false, first, c1);
      && a.message == None
      && AddCheck(a.store, f2, false, second, c2).message == Some(Reassembled(first + second, f2))
  {
    TwoPagesAssemble(first, second);
    var c1 := FragmentCall(key, 0, PAGE_SIZE, true);
    var a := AddCheck(st, f1, false, first, c1);
    assert a.store.fragments[key].slots == map[0 := first];
    assert a.store.fragments[key].finalOffset == None;
    assert StorePage(map[0 := first], PAGE_SIZE, second) == map[0 := first, PAGE_SIZE := second];
  }

  /** The second page, then the first: the first completes the message. */
  lemma {:induction false} TwoPagesReversed(st: Store, key: U32, first: seq<Byte>, second: seq<Byte>, f1: Frame, f2: Frame)
    requires key !in st.fragments && |first| == PAGE_SIZE && |second| == PAGE_SIZE
    ensures
      var c1 := FragmentCall(key, 0, PAGE_SIZE, true);
      var c2 := FragmentCall(key, PAGE_SIZE, PAGE_SIZE, false);
      var b := AddCheck(st, f2, false, second, c2);
      && b.message == None
      && AddCheck(b.store, f1, false, first, c1).message == Some(Reassembled(first + second, f1))
  {
    TwoPagesAssemble(first, second);
    var c2 := FragmentCall(key, PAGE_SIZE, PAGE_SIZE, false);
    var b := AddCheck(st, f2, false, second, c2);
    assert !Complete(map[PAGE_SIZE := second], PAGE_SIZE) by {
      assert 0 * PAGE_SIZE !in map[PAGE_SIZE := second];
    }
    assert b.store.fragments[key].slots == map[PAGE_SIZE := second];
    assert b.store.fragments[key].finalOffset == Some(PAGE_SIZE);
    assert StorePage(map[PAGE_SIZE := second], 0, first) == map[0 := first, PAGE_SIZE := second];
  }

  // ---------------------------------------------------------------------------
  // The tables as state

  class PageStore {
    var fragments: map<U32, Record>
    var reassembled: map<(Frame, U32), Reassembled>
    var conflicts: set<U32>
    var multipleTails: set<U32>

    function State(): Store
      reads this
    {
      Store(fragments, reassembled, conflicts, multipleTails)
    }

    /** A fresh session starts with both tables empty. */
    constructor ()
      ensures State() == EMPTY
    {
      fragments, reassembled, conflicts, multipleTails := map[], map[], {}, {};
    }

    /** gsm_cbs_message_reassembly_init: the init routine run when a new capture is loaded. */
    method ReassemblyInit()
      modifies this
      ensures State() == EMPTY
    {
      fragments, reassembled, conflicts, multipleTails := map[], map[], {}, {};
    }

    /** fragment_add_check on these tables. */
    method FragmentAddCheck(frame: Frame, visited: bool, page: seq<Byte>, call: FragmentCall)
      returns (message: Option<Reassembled>)
      requires call.length == PAGE_SIZE
      modifies this
      ensures State() == AddCheck(old(State()), frame, visited, page, call).store
      ensures message == AddCheck(old(State()), frame, visited, page, call).message
    {
      var key := call.key;
      if visited {
        message := if (frame, key) in reassembled then Some(reassembled[(frame, key)]) else None;
        return;
      }
      if |page| < call.length {
        message := None;
        return;
      }
      var bytes := page[..call.length];
      var rec := if key in fragments then fragments[key] else Record(map[], None, {});
      if call.offset in rec.slots && rec.slots[call.offset] != bytes {
        conflicts := conflicts + {key};
      }
      if !call.morePages && rec.finalOffset.Some? && rec.finalOffset.value != call.offset {
        multipleTails := multipleTails + {key};
      }
      var slots := StorePage(rec.slots, call.offset, bytes);
      var fin := rec.finalOffset;
      if fin.None? && !call.morePages {
        fin := Some(call.offset);
      }
      var frames := rec.frames + {frame};
      if fin.Some? && Complete(slots, fin.value) {
        var m := Reassembled(Assemble(slots, PageCount(fin.value)), frame);
        fragments := fragments - {key};
        reassembled := reassembled + ReassembledIn(frames, key, m);
        message := Some(m);
      } else {
        fragments := fragments[key := Record(slots, fin, frames)];
        message := None;
      }
    }
  }
}
