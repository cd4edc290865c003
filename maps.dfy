/**
 * The typed array maps: a descriptor fixed when the map is declared, and get / index / set
 * over the slots the host keeps for it. The host's storage is the field `store`; the kernel
 * helpers `bpf_map_lookup_elem` and `bpf_map_update_elem` become `Lookup` and `UpdateElem`
 * over it.
 */
module Maps {
  import opened Ints
  import opened Wrappers
  import opened Error

  /** `bpf_map_type` tags of the three array kinds. */
  const BPF_MAP_TYPE_ARRAY: u32 := 2
  const BPF_MAP_TYPE_PROG_ARRAY: u32 := 3
  const BPF_MAP_TYPE_PERCPU_ARRAY: u32 := 6

  /** `BPF_ANY`: create the element or overwrite it. */
  const BPF_ANY: u64 := 0

  /** `bpf_map_def`, the descriptor the loader reads to create the map. */
  datatype BpfMapDef = BpfMapDef(type_: u32, key_size: u32, value_size: u32, max_entries: u32, map_flags: u32)

  /** The descriptor `GenericArray::with_max_entries` builds; `valueSize` is `mem::size_of::<T>()`. */
  function ArrayDef(ty: u32, valueSize: usize, maxEntries: u32): (d: BpfMapDef)
    ensures d.type_ == ty && d.max_entries == maxEntries && d.map_flags == 0
    ensures d.key_size == 4
    ensures valueSize < TWO_32 ==> d.value_size == valueSize
  {
    BpfMapDef(ty, 4, valueSize % TWO_32, maxEntries, 0)
  }

  /** The map types `array_type!` declares. */
  datatype ArrayKind = Array | ProgArray | PerCpuArray

  /** The fixed type tag each declared map type passes. */
  function MapType(k: ArrayKind): (t: u32)
    ensures t == BPF_MAP_TYPE_ARRAY <==> k == Array
    ensures t == BPF_MAP_TYPE_PROG_ARRAY <==> k == ProgArray
    ensures t == BPF_MAP_TYPE_PERCPU_ARRAY <==> k == PerCpuArray
  {
    match k
    case Array => BPF_MAP_TYPE_ARRAY
    case ProgArray => BPF_MAP_TYPE_PROG_ARRAY
    case PerCpuArray => BPF_MAP_TYPE_PERCPU_ARRAY
  }

  /** `Array::with_max_entries`, `ProgArray::with_max_entries`, `PerCpuArray::with_max_entries`. */
  function PresetDef(k: ArrayKind, valueSize: usize, maxEntries: u32): (d: BpfMapDef)
    ensures d == ArrayDef(MapType(k), valueSize, maxEntries)
  {
    ArrayDef(MapType(k), valueSize, maxEntries)
  }

  /** The declared map types differ in their type tag and in nothing else. */
  lemma PresetsDifferOnlyInType(k1: ArrayKind, k2: ArrayKind, valueSize: usize, maxEntries: u32)
    ensures PresetDef(k1, valueSize, maxEntries).(type_ := 0) == PresetDef(k2, valueSize, maxEntries).(type_ := 0)
    ensures PresetDef(k1, valueSize, maxEntries).type_ == PresetDef(k2, valueSize, maxEntries).type_ <==> k1 == k2
  {
  }

  /** `GenericArray<T>`: the descriptor and the host's slots for one array map. */
  class GenericArray<T> {
    /** The descriptor; no operation changes it after construction. */
    const def: BpfMapDef
    /** The host's storage: the value of every slot the host reports present. */
    var store: map<u32, T>

    /** `GenericArray::with_max_entries`, with the host storage the map is given. */
    constructor WithMaxEntries(ty: u32, valueSize: usize, maxEntries: u32, host: map<u32, T>)
      ensures def == ArrayDef(ty, valueSize, maxEntries) && store == host
    {
      def := ArrayDef(ty, valueSize, maxEntries);
      store := host;
    }

    /** A map declared with one of the `array_type!` types. */
    constructor Preset(k: ArrayKind, valueSize: usize, maxEntries: u32, host: map<u32, T>)
      ensures def == PresetDef(k, valueSize, maxEntries) && store == host
    {
      def := PresetDef(k, valueSize, maxEntries);
      store := host;
    }

    /** `lookup`: the host's `bpf_map_lookup_elem`, a null result becoming `None`. */
    method Lookup(index: u32) returns (r: Option<T>)
      ensures r.None? <==> index !in store
      ensures r.Some? ==> r.value == store[index]
    {
      r := if index in store then Some(store[index]) else None;
    }

    /** `get`: the slot at `index`, or `None` when the host has none. */
    method Get(index: u32) returns (r: Option<T>)
      ensures r.None? <==> index !in store
      ensures r.Some? ==> r.value == store[index]
    {
      r := Lookup(index);
    }

    /** `get_mut`: as `get`; the returned slot is the one a later lookup sees. */
    method GetMut(index: u32) returns (r: Option<T>)
      ensures r.None? <==> index !in store
      ensures r.Some? ==> r.value == store[index]
    {
      r := Lookup(index);
    }

    /** `Index::index`: the slot at `index`; a missing slot is a panic, so callers must rule it out. */
    method Index(index: u32) returns (v: T)
      requires index in store
      ensures v == store[index]
    {
      var r := Lookup(index);
      v := r.value;
    }

    /** `IndexMut::index_mut`, used as `a[index] = v`: writes the slot, which must exist. */
    method IndexMut(index: u32, v: T)
      requires index in store
      modifies this
      ensures store == old(store)[index := v]
    {
      var r := Lookup(index);
      assert r.Some?;
      store := store[index := v];
    }

    /**
     * The host's `bpf_map_update_elem` with `BPF_ANY`. The host decides the result code
     * `verdict`; on success the slot holds `value`, on failure nothing changes.
     */
    method UpdateElem(key: u32, value: T, flags: u64, verdict: i32) returns (rc: i32)
      requires flags == BPF_ANY
      modifies this
      ensures rc == verdict
      ensures store == if verdict == 0 then old(store)[key := value] else old(store)
    {
      rc := verdict;
      if verdict == 0 {
        store := store[key := value];
      }
    }

    /** `set`: insert or overwrite the slot; the host's code comes back through `IntoResult::ok`. */
    method Set(index: u32, value: T, verdict: i32) returns (r: Result<(), Errno>)
      modifies this
      ensures r == IntoResult(verdict)
      ensures store == if r.Ok? then old(store)[index := value] else old(store)
    {
      var rc := UpdateElem(index, value, BPF_ANY, verdict);
      r := IntoResult(rc);
    }
  }

  /** A successful `set` is seen by the next `get`, and other slots keep their values. */
  method SetThenGet<T>(a: GenericArray<T>, index: u32, other: u32, value: T, verdict: i32)
      returns (r: Result<(), Errno>, g: Option<T>, h: Option<T>)
    requires other != index
    modifies a
    ensures r.Ok? ==> g == Some(value)
    ensures r.Err? ==> g == (if index in old(a.store) then Some(old(a.store)[index]) else None)
    ensures h == (if other in old(a.store) then Some(old(a.store)[other]) else None)
  {
    r := a.Set(index, value, verdict);
    g := a.Get(index);
    h := a.Get(other);
  }
}
