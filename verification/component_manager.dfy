/** The per-type component manager: an id table that maps generation-checked handles to
    storage positions, and a block storage that keeps the component records, densely
    (compact: swap-remove) or with tombstones (non-compact: records never move). */
module ComponentManagement {
  import opened Common

  /** ezGenericComponentId: index into the id table plus the generation it was issued with. */
  datatype ComponentId = ComponentId(index: nat, generation: nat)

  /** ezComponentHandle: the id and the type id of the component type it belongs to. */
  datatype ComponentHandle = ComponentHandle(id: ComponentId, typeId: uint16)

  /** One entry of the id table. `entry` is the storage position of the live component
      that owns this index; None marks a free index. */
  datatype Slot = Slot(generation: nat, entry: Option<nat>)

  /** A component record. It knows its own id (m_InternalId), which is cleared when the
      component is invalidated; the record itself stays in storage until it is deleted. */
  datatype Component = Component(internalId: Option<ComponentId>)

  /** A storage position: a record, or (non-compact storage only) a freed position. */
  datatype Cell = Occupied(component: Component) | Tombstone

  /** The record a freshly allocated (not yet registered) or an invalidated component has. */
  const Unregistered := Occupied(Component(None))

  /** Number of the first n indices of the id table that belong to a live component. */
  function LiveCountBelow(table: seq<Slot>, n: nat): (r: nat)
    requires n <= |table|
    ensures r <= n
  {
    if n == 0 then 0
    else LiveCountBelow(table, n - 1) + (if table[n - 1].entry.Some? then 1 else 0)
  }

  /** Number of indices of the id table that belong to a live component. */
  function LiveCount(table: seq<Slot>): (r: nat)
    ensures r <= |table|
  {
    LiveCountBelow(table, |table|)
  }

  /** Rewriting one slot changes the count below n (n past the slot) by the change of that
      slot alone. */
  lemma {:induction false} LiveCountBelowUpdate(table: seq<Slot>, i: nat, s: Slot, n: nat)
    requires i < n <= |table|
    ensures LiveCountBelow(table[i := s], n) ==
            LiveCountBelow(table, n) - (if table[i].entry.Some? then 1 else 0) + (if s.entry.Some? then 1 else 0)
  {
    if i < n - 1 {
      LiveCountBelowUpdate(table, i, s, n - 1);
    } else {
      LiveCountBelowUnchanged(table, table[i := s], n - 1);
    }
  }

  /** The count below n only depends on the first n slots. */
  lemma {:induction false} LiveCountBelowUnchanged(a: seq<Slot>, b: seq<Slot>, n: nat)
    requires n <= |a| && n <= |b|
    requires forall k | 0 <= k < n :: a[k] == b[k]
    ensures LiveCountBelow(a, n) == LiveCountBelow(b, n)
  {
    if n > 0 {
      LiveCountBelowUnchanged(a, b, n - 1);
    }
  }

  /** Rewriting one slot changes the live count by the change of that slot alone. */
  lemma LiveCountUpdate(table: seq<Slot>, i: nat, s: Slot)
    requires i < |table|
    ensures LiveCount(table[i := s]) ==
            LiveCount(table) - (if table[i].entry.Some? then 1 else 0) + (if s.entry.Some? then 1 else 0)
  {
    LiveCountBelowUpdate(table, i, s, |table|);
  }

  /** Appending a slot adds one to the live count exactly when the new slot is live. */
  lemma LiveCountAppend(table: seq<Slot>, s: Slot)
    ensures LiveCount(table + [s]) == LiveCount(table) + (if s.entry.Some? then 1 else 0)
  {
    LiveCountBelowUnchanged(table, table + [s], |table|);
  }

  /** Every live index of the table names a storage position whose record carries exactly
      that index and the slot's current generation. */
  ghost predicate SlotsPointToOwners(table: seq<Slot>, cells: seq<Cell>)
  {
    forall i | 0 <= i < |table| && table[i].entry.Some? ::
      table[i].entry.value < |cells| &&
      cells[table[i].entry.value] == Occupied(Component(Some(ComponentId(i, table[i].generation))))
  }

  /** Every record that still has an id is the one its slot points at. */
  ghost predicate OwnersPointToSlots(table: seq<Slot>, cells: seq<Cell>)
  {
    forall p | 0 <= p < |cells| && cells[p].Occupied? && cells[p].component.internalId.Some? ::
      cells[p].component.internalId.value.index < |table| &&
      table[cells[p].component.internalId.value.index] ==
        Slot(cells[p].component.internalId.value.generation, Some(p))
  }

  /** The free list holds distinct free indices of the table. */
  ghost predicate FreeListValid(table: seq<Slot>, freeList: seq<nat>)
  {
    && (forall k | 0 <= k < |freeList| :: freeList[k] < |table| && table[freeList[k]].entry.None?)
    && (forall j, k | 0 <= j < k < |freeList| :: freeList[j] != freeList[k])
  }

  /** The id table and the storage agree: the invariant the manager keeps between calls. */
  ghost predicate TableMatchesStorage(table: seq<Slot>, freeList: seq<nat>, cells: seq<Cell>, retired: set<ComponentId>)
  {
    && SlotsPointToOwners(table, cells)
    && OwnersPointToSlots(table, cells)
    && FreeListValid(table, freeList)
    && RetiredAreStale(table, retired)
  }

  /** Registering an unregistered record under the oldest free index, with the generation
      that index already has, keeps the id table and storage in agreement, and the new id
      was never removed before. */
  lemma ReuseFreeIndexKeepsAgreement(table: seq<Slot>, freeList: seq<nat>, cells: seq<Cell>,
                                     retired: set<ComponentId>, pos: nat)
    requires TableMatchesStorage(table, freeList, cells, retired)
    requires |freeList| > 0 && pos < |cells| && cells[pos] == Unregistered
    ensures var id := ComponentId(freeList[0], table[freeList[0]].generation);
            && TableMatchesStorage(table[id.index := Slot(id.generation, Some(pos))], freeList[1..],
                                   cells[pos := Occupied(Component(Some(id)))], retired)
            && id !in retired
  {
    var id := ComponentId(freeList[0], table[freeList[0]].generation);
    var t := table[id.index := Slot(id.generation, Some(pos))];
    var c := cells[pos := Occupied(Component(Some(id)))];
    forall i | 0 <= i < |t| && t[i].entry.Some?
      ensures t[i].entry.value < |c| && c[t[i].entry.value] == Occupied(Component(Some(ComponentId(i, t[i].generation))))
    {
      if i != id.index {
        assert table[i].entry.value != pos;
      }
    }
    forall q | 0 <= q < |c| && c[q].Occupied? && c[q].component.internalId.Some?
      ensures c[q].component.internalId.value.index < |t|
      ensures t[c[q].component.internalId.value.index] == Slot(c[q].component.internalId.value.generation, Some(q))
    {
      if q != pos {
        assert c[q] == cells[q];
        assert cells[q].component.internalId.value.index != id.index;
      }
    }
    forall k | 0 <= k < |freeList[1..]|
      ensures freeList[1..][k] < |t| && t[freeList[1..][k]].entry.None?
    {
      assert freeList[1..][k] == freeList[k + 1] != freeList[0];
    }
  }

  /** Registering an unregistered record under a new index appended at the end of the table,
      with generation 0, keeps the id table and storage in agreement. */
  lemma AppendIndexKeepsAgreement(table: seq<Slot>, freeList: seq<nat>, cells: seq<Cell>,
                                  retired: set<ComponentId>, pos: nat)
    requires TableMatchesStorage(table, freeList, cells, retired)
    requires pos < |cells| && cells[pos] == Unregistered
    ensures var id := ComponentId(|table|, 0);
            && TableMatchesStorage(table + [Slot(0, Some(pos))], freeList,
                                   cells[pos := Occupied(Component(Some(id)))], retired)
            && id !in retired
  {
    var id := ComponentId(|table|, 0);
    var t := table + [Slot(0, Some(pos))];
    var c := cells[pos := Occupied(Component(Some(id)))];
    forall i | 0 <= i < |t| && t[i].entry.Some?
      ensures t[i].entry.value < |c| && c[t[i].entry.value] == Occupied(Component(Some(ComponentId(i, t[i].generation))))
    {
      if i < |table| {
        assert t[i] == table[i];
        assert table[i].entry.value != pos;
      }
    }
    forall q | 0 <= q < |c| && c[q].Occupied? && c[q].component.internalId.Some?
      ensures c[q].component.internalId.value.index < |t|
      ensures t[c[q].component.internalId.value.index] == Slot(c[q].component.internalId.value.generation, Some(q))
    {
      if q != pos {
        assert c[q] == cells[q];
      }
    }
  }

  /** Every id that was ever removed is older than the current generation of its index. */
  ghost predicate RetiredAreStale(table: seq<Slot>, retired: set<ComponentId>)
  {
    forall id | id in retired :: id.index < |table| && id.generation < table[id.index].generation
  }

  /** The records in physical order, skipping tombstones: what GetComponents iterates over
      (invalidated records that are not yet deleted included). */
  function Records(cells: seq<Cell>): (r: seq<Component>)
    ensures |r| <= |cells|
    ensures forall c :: c in r <==> Occupied(c) in cells
  {
    if cells == [] then []
    else (if cells[0].Occupied? then [cells[0].component] else []) + Records(cells[1..])
  }

  /** Iteration over two stretches of storage visits the first stretch's records, in order,
      and then the second's. */
  lemma {:induction false} RecordsAppend(a: seq<Cell>, b: seq<Cell>)
    ensures Records(a + b) == Records(a) + Records(b)
  {
    if a == [] {
      assert a + b == b;
    } else {
      assert (a + b)[0] == a[0] && (a + b)[1..] == a[1..] + b;
      RecordsAppend(a[1..], b);
    }
  }

  /** A position holding a record is visited once; a tombstone is skipped. */
  lemma RecordsOfOneCell(c: Cell)
    ensures Records([c]) == if c.Occupied? then [c.component] else []
  {
    assert [c][1..] == [];
  }

  /** In compact storage every position holds a record, so iteration visits all of them. */
  lemma {:induction false} CompactRecordsAreAllCells(cells: seq<Cell>)
    requires forall p | 0 <= p < |cells| :: cells[p].Occupied?
    ensures |Records(cells)| == |cells|
    ensures forall p | 0 <= p < |cells| :: Records(cells)[p] == cells[p].component
  {
    if cells != [] {
      CompactRecordsAreAllCells(cells[1..]);
    }
  }

  /** ezComponentManagerBase together with ezComponentManager<T, CompactStorage>: the id
      table m_Components (with its free list and live count) and m_ComponentStorage. */
  class ComponentManager {
    const typeId: uint16
    const compact: bool
    var table: seq<Slot>
    var freeList: seq<nat>
    var count: nat
    var cells: seq<Cell>
    /** Every id that has been removed from the table so far. */
    ghost var retired: set<ComponentId>

    ghost predicate Valid()
      reads this
    {
      && TableMatchesStorage(table, freeList, cells, retired)
      && count == LiveCount(table)
      && (compact ==> forall p | 0 <= p < |cells| :: cells[p].Occupied?)
    }

    constructor (typeId: uint16, compact: bool)
      ensures Valid()
      ensures this.typeId == typeId && this.compact == compact
      ensures table == [] && cells == [] && count == 0 && retired == {}
    {
      this.typeId := typeId;
      this.compact := compact;
      table, freeList, count, cells := [], [], 0, [];
      retired := {};
    }

    /** The handle names this manager's type, and its index is live with the handle's generation. */
    predicate IsValidComponent(h: ComponentHandle)
      reads this
    {
      && h.typeId == typeId
      && h.id.index < |table|
      && table[h.id.index].generation == h.id.generation
      && table[h.id.index].entry.Some?
    }

    /** A handle of this manager's type is valid exactly when some record in storage carries
        its id: the id table never names a record that does not exist, and never loses one. */
    lemma ValidIffCarriedByRecord(h: ComponentHandle)
      requires Valid()
      ensures IsValidComponent(h) <==>
                h.typeId == typeId && exists p | 0 <= p < |cells| :: cells[p] == Occupied(Component(Some(h.id)))
      ensures IsValidComponent(h) ==> h.id !in retired
    {
      if h.typeId == typeId && exists p | 0 <= p < |cells| :: cells[p] == Occupied(Component(Some(h.id))) {
        var p :| 0 <= p < |cells| && cells[p] == Occupied(Component(Some(h.id)));
        assert cells[p].component.internalId.value == h.id;
      }
    }

    /** The storage position a valid handle resolves to. */
    function Resolve(h: ComponentHandle): nat
      reads this
      requires IsValidComponent(h)
    {
      table[h.id.index].entry.value
    }

    /** TryGetComponent: true exactly for a valid handle, and then the position of the
        record that carries the handle's id; otherwise the out value is left as it was. */
    method TryGetComponent(h: ComponentHandle, outComponent: nat) returns (found: bool, component: nat)
      requires Valid()
      ensures found == IsValidComponent(h)
      ensures found ==> component < |cells| && cells[component] == Occupied(Component(Some(h.id)))
      ensures !found ==> component == outComponent
      ensures found ==> h.id !in retired
    {
      found := IsValidComponent(h);
      component := outComponent;
      if found {
        component := table[h.id.index].entry.value;
      }
    }

    /** GetComponentCount: the number of live components. */
    method GetComponentCount() returns (n: nat)
      requires Valid()
      ensures n == LiveCount(table)
      ensures n <= |table|
    {
      n := count;
    }

    /** CreateComponentEntry: registers the unregistered record at `pos` in the id table,
        reusing the oldest free index (keeping its generation) or appending a new one. */
    method CreateComponentEntry(pos: nat, uiTypeId: uint16) returns (h: ComponentHandle)
      requires Valid()
      requires pos < |cells| && cells[pos] == Unregistered
      modifies this
      ensures Valid()
      ensures h.typeId == uiTypeId && h.id !in retired && retired == old(retired)
      ensures uiTypeId == typeId ==> IsValidComponent(h) && Resolve(h) == pos
      ensures forall g | old(IsValidComponent(g)) :: g.id != h.id
      ensures cells == old(cells)[pos := Occupied(Component(Some(h.id)))]
      ensures count == old(count) + 1
      ensures forall g :: old(IsValidComponent(g)) ==> IsValidComponent(g) && Resolve(g) == old(Resolve(g))
    {
      var id: ComponentId;
      if |freeList| > 0 {
        id := ComponentId(freeList[0], table[freeList[0]].generation);
        assert table[id.index].entry.None?;
        ReuseFreeIndexKeepsAgreement(table, freeList, cells, retired, pos);
        LiveCountUpdate(table, id.index, Slot(id.generation, Some(pos)));
        freeList := freeList[1..];
        table := table[id.index := Slot(id.generation, Some(pos))];
      } else {
        id := ComponentId(|table|, 0);
        AppendIndexKeepsAgreement(table, freeList, cells, retired, pos);
        LiveCountAppend(table, Slot(0, Some(pos)));
        table := table + [Slot(0, Some(pos))];
      }
      cells := cells[pos := Occupied(Component(Some(id)))];
      count := count + 1;
      h := ComponentHandle(id, uiTypeId);
      forall g | old(IsValidComponent(g))
        ensures g.id != h.id && IsValidComponent(g) && Resolve(g) == old(Resolve(g))
      {
        assert old(table[g.id.index].entry).Some?;
        assert g.id.index != id.index;
      }
    }

    /** AllocateComponent: appends a new record to storage and returns a handle to it that
        is valid, was never valid before, and resolves to the new record. */
    method AllocateComponent() returns (h: ComponentHandle)
      requires Valid()
      modifies this
      ensures Valid()
      ensures IsValidComponent(h) && Resolve(h) == |old(cells)|
      ensures cells == old(cells) + [Occupied(Component(Some(h.id)))]
      ensures !old(IsValidComponent(h)) && h.id !in retired && retired == old(retired)
      ensures count == old(count) + 1
      ensures forall g :: old(IsValidComponent(g)) ==> IsValidComponent(g) && Resolve(g) == old(Resolve(g))
    {
      cells := cells + [Unregistered];
      h := CreateComponentEntry(|cells| - 1, typeId);
    }

    /** CreateComponent: AllocateComponent that also hands out the new record's position. */
    method CreateComponent() returns (h: ComponentHandle, component: nat)
      requires Valid()
      modifies this
      ensures Valid()
      ensures IsValidComponent(h) && Resolve(h) == component
      ensures component < |cells| && cells[component] == Occupied(Component(Some(h.id)))
      ensures cells == old(cells) + [Occupied(Component(Some(h.id)))]
      ensures !old(IsValidComponent(h)) && h.id !in retired && retired == old(retired)
      ensures count == old(count) + 1
      ensures forall g :: old(IsValidComponent(g)) ==> IsValidComponent(g) && Resolve(g) == old(Resolve(g))
    {
      component := |cells|;
      h := AllocateComponent();
    }

    /** DeleteComponent: a valid handle's component is invalidated at once: its index is
        freed with a new generation and its record loses its id, but the record stays where
        it is. The returned position is the entry that awaits physical deletion. An invalid
        handle changes nothing. */
    method DeleteComponent(h: ComponentHandle) returns (dead: Option<nat>)
      requires Valid()
      modifies this
      ensures Valid()
      ensures !IsValidComponent(h)
      ensures dead.Some? <==> old(IsValidComponent(h))
      ensures dead.Some? ==>
                && dead.value == old(Resolve(h))
                && cells == old(cells)[dead.value := Unregistered]
                && retired == old(retired) + {h.id}
                && count == old(count) - 1
      ensures dead.None? ==> cells == old(cells) && table == old(table) && retired == old(retired)
      ensures dead.Some? ==> forall g :: IsValidComponent(g) <==> old(IsValidComponent(g)) && g.id != h.id
      ensures forall g :: IsValidComponent(g) ==> Resolve(g) == old(Resolve(g))
    {
      if !IsValidComponent(h) {
        return None;
      }
      var index := h.id.index;
      var pos := table[index].entry.value;
      LiveCountUpdate(table, index, Slot(h.id.generation + 1, None));
      table := table[index := Slot(h.id.generation + 1, None)];
      freeList := freeList + [index];
      count := count - 1;
      cells := cells[pos := Unregistered];
      retired := retired + {h.id};
      dead := Some(pos);
    }

    /** DeleteDeadComponent: removes the record at `pos` from storage. Compact storage moves
        the last record into the hole and reports it (at most one record moves); non-compact
        storage leaves a tombstone and moves nothing. The id table is not touched. */
    method DeleteDeadComponent(pos: nat) returns (moved: Option<Component>)
      requires pos < |cells| && cells[pos].Occupied?
      requires compact ==> forall p | 0 <= p < |cells| :: cells[p].Occupied?
      modifies this`cells
      ensures compact ==> cells == RemoveAtSwap(old(cells), pos)
      ensures compact ==> forall p | 0 <= p < |cells| :: cells[p].Occupied?
      ensures !compact ==> cells == old(cells)[pos := Tombstone]
      ensures moved.Some? <==> compact && pos < |old(cells)| - 1
      ensures moved.Some? ==> Occupied(moved.value) == old(cells)[|old(cells)| - 1]
    {
      if compact {
        var last := |cells| - 1;
        moved := if pos < last then Some(cells[last].component) else None;
        cells := RemoveAtSwap(cells, pos);
      } else {
        moved := None;
        cells := cells[pos := Tombstone];
      }
    }

    /** DeleteComponentEntry: physically deletes an invalidated record and, when storage
        moved another record into its place, re-points that record's id to its new position.
        Afterwards exactly the same handles are valid and each still reaches its own record. */
    method DeleteComponentEntry(pos: nat)
      requires Valid()
      requires pos < |cells| && cells[pos] == Unregistered
      modifies this
      ensures Valid()
      ensures compact ==> cells == RemoveAtSwap(old(cells), pos)
      ensures !compact ==> cells == old(cells)[pos := Tombstone]
      ensures count == old(count) && retired == old(retired)
      ensures forall g :: IsValidComponent(g) <==> old(IsValidComponent(g))
      ensures forall g | IsValidComponent(g) ::
                Resolve(g) == (if compact && old(Resolve(g)) == |old(cells)| - 1 then pos else old(Resolve(g)))
      ensures forall g | IsValidComponent(g) :: cells[Resolve(g)] == old(cells[Resolve(g)])
    {
      var moved := DeleteDeadComponent(pos);
      if moved.Some? && moved.value.internalId.Some? {
        var id := moved.value.internalId.value;
        LiveCountUpdate(table, id.index, Slot(id.generation, Some(pos)));
        table := table[id.index := Slot(id.generation, Some(pos))];
      }
    }
  }

  /** Compact storage: after deleting the record at pos, iteration visits the records it
      visited before with the last one moved into pos, and nothing else changes place. */
  lemma CompactDeletionRecords(cells: seq<Cell>, pos: nat)
    requires pos < |cells|
    requires forall p | 0 <= p < |cells| :: cells[p].Occupied?
    ensures |Records(cells)| == |cells| && Records(RemoveAtSwap(cells, pos)) == RemoveAtSwap(Records(cells), pos)
  {
    var after := RemoveAtSwap(cells, pos);
    CompactRecordsAreAllCells(cells);
    CompactRecordsAreAllCells(after);
  }

  /** Iteration visits the records before pos, then the one at pos (if any), then those
      after it. */
  lemma RecordsSplit(cells: seq<Cell>, pos: nat)
    requires pos < |cells|
    ensures Records(cells) == Records(cells[..pos]) + Records([cells[pos]]) + Records(cells[pos + 1..])
  {
    var before, after := cells[..pos], cells[pos + 1..];
    assert cells == (before + [cells[pos]]) + after;
    RecordsAppend(before + [cells[pos]], after);
    RecordsAppend(before, [cells[pos]]);
  }

  /** Non-compact storage: the tombstone left at pos drops exactly that record from
      iteration, and every other record is visited in the same order as before. */
  lemma TombstoneDeletionRecords(cells: seq<Cell>, pos: nat)
    requires pos < |cells| && cells[pos].Occupied?
    ensures Records(cells) == Records(cells[..pos]) + [cells[pos].component] + Records(cells[pos + 1..])
    ensures Records(cells[pos := Tombstone]) == Records(cells[..pos]) + Records(cells[pos + 1..])
  {
    var t := cells[pos := Tombstone];
    assert t[..pos] == cells[..pos] && t[pos + 1..] == cells[pos + 1..];
    RecordsSplit(cells, pos);
    RecordsSplit(t, pos);
    RecordsOfOneCell(cells[pos]);
    RecordsOfOneCell(Tombstone);
  }
}
