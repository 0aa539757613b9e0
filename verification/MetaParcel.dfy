/**
 The parcel codec of `Meta`: a map of dynamically typed values, written as a
 count and one tagged entry per key, and read back with the help of the default
 value registered for each tag.

 A parcel is a row of cells, one per value written; how a cell is laid out in
 bytes is the parcel library's matter.  `capacity` is the number of cells it
 accepts, so that writes can fail.
 */
module MetaParcel {
  import opened Sequences

  // ------------------------------------------------------------------
  // Values and cells
  // ------------------------------------------------------------------

  /** An enumeration type: its identity and its underlying integer. */
  datatype EnumType = EnumType(id: nat, size: nat, signed: bool)

  /** A dynamically typed value.  Floating-point values are their bit patterns. */
  datatype Any =
    | Bool(b: bool) | Int32(i: int) | Int64(i: int) | UInt32(i: int) | UInt64(i: int)
    | Float(bits: nat) | Double(bits: nat) | Text(s: string)
    | VectorUInt8(ints: seq<int>) | VectorInt32(ints: seq<int>) | VectorInt64(ints: seq<int>)
    | Enum(ty: EnumType, e: int)
    | Small(kind: nat, raw: int)  // any other type of at most eight bytes, such as int8_t and uint8_t
    | Large(kind: nat, raw: int)  // any other type of more than eight bytes, such as vector<uint32_t>
    | Nothing                     // no value

  predicate IsBase(v: Any) {
    !v.Enum? && !v.Small? && !v.Large? && !v.Nothing?
  }

  /** Types of more than eight bytes: strings and vectors among the base types. */
  predicate IsWide(v: Any) {
    v.Text? || v.VectorUInt8? || v.VectorInt32? || v.VectorInt64? || v.Large?
  }

  datatype Cell = I32(i: int) | I64(i: int) | Plain(v: Any) | Str(s: string)

  const INVALID_TYPE := 1

  /** The type code of a base type. */
  function BaseCode(v: Any): int
    requires IsBase(v)
  {
    match v
    case Bool(_) => 2
    case Int32(_) => 5
    case UInt32(_) => 6
    case Int64(_) => 7
    case UInt64(_) => 8
    case Float(_) => 9
    case Double(_) => 10
    case VectorUInt8(_) => 11
    case Text(_) => 13
    case VectorInt32(_) => 14
    case VectorInt64(_) => 15
  }

  /** The cell that holds a base value. */
  function BaseCell(v: Any): Cell
    requires IsBase(v)
  {
    match v
    case Int32(i) => I32(i)
    case Int64(i) => I64(i)
    case Text(s) => Str(s)
    case _ => Plain(v)
  }

  // ------------------------------------------------------------------
  // Integer conversions
  // ------------------------------------------------------------------

  /** The number of values of an integer type of `size` bytes. */
  function Span(size: nat): int {
    match size
    case 1 => 0x100
    case 2 => 0x1_0000
    case 4 => 0x1_0000_0000
    case _ => 0x1_0000_0000_0000_0000
  }

  /** Conversion to an integer type of the given size and signedness. */
  function Cast(size: nat, signed: bool, x: int): int {
    var m := x % Span(size);
    if signed && 2 * m >= Span(size) then m - Span(size) else m
  }

  predicate InType(size: nat, signed: bool, x: int) {
    if signed then -Span(size) <= 2 * x < Span(size) else 0 <= x < Span(size)
  }

  predicate ValidEnum(v: Any) {
    v.Enum? ==> (v.ty.size == 1 || v.ty.size == 2 || v.ty.size == 4 || v.ty.size == 8) && InType(v.ty.size, v.ty.signed, v.e)
  }

  /** The cell of an enumeration value: 64 bits for an eight-byte type, 32 bits otherwise. */
  function EnumCell(ty: EnumType, e: int): Cell {
    if ty.size == 8 then I64(Cast(8, true, e)) else I32(Cast(4, true, e))
  }

  lemma CastSame(size: nat, signed: bool, e: int)
    requires size == 1 || size == 2 || size == 4 || size == 8
    requires InType(size, signed, e)
    ensures Cast(size, signed, e) == e
  {
  }

  lemma SameByte(e: int, k: int)
    ensures (e - k * 0x1_0000_0000) % 0x100 == e % 0x100
  {
    assert e - k * 0x1_0000_0000 == 0x100 * (e / 0x100 - 0x100_0000 * k) + e % 0x100;
  }

  lemma SameShort(e: int, k: int)
    ensures (e - k * 0x1_0000_0000) % 0x1_0000 == e % 0x1_0000
  {
    assert e - k * 0x1_0000_0000 == 0x1_0000 * (e / 0x1_0000 - 0x1_0000 * k) + e % 0x1_0000;
  }

  lemma SameWord(e: int, k: int)
    ensures (e - k * 0x1_0000_0000) % 0x1_0000_0000 == e % 0x1_0000_0000
  {
    assert e - k * 0x1_0000_0000 == 0x1_0000_0000 * (e / 0x1_0000_0000 - k) + e % 0x1_0000_0000;
  }

  lemma SameModulo(e: int, m: int)
    ensures (e % 0x1_0000_0000 - m * 0x1_0000_0000) % 0x100 == e % 0x100
    ensures (e % 0x1_0000_0000 - m * 0x1_0000_0000) % 0x1_0000 == e % 0x1_0000
    ensures (e % 0x1_0000_0000 - m * 0x1_0000_0000) % 0x1_0000_0000 == e % 0x1_0000_0000
  {
    var k := e / 0x1_0000_0000 + m;
    assert e % 0x1_0000_0000 - m * 0x1_0000_0000 == e - k * 0x1_0000_0000;
    SameByte(e, k);
    SameShort(e, k);
    SameWord(e, k);
  }

  lemma SameModulo64(e: int, m: int)
    ensures (e % 0x1_0000_0000_0000_0000 - m * 0x1_0000_0000_0000_0000) % 0x1_0000_0000_0000_0000
      == e % 0x1_0000_0000_0000_0000
  {
  }

  /** An enumeration value comes back from the signed integer it travels in. */
  lemma EnumTravels(ty: EnumType, e: int)
    requires ValidEnum(Enum(ty, e))
    ensures Cast(ty.size, ty.signed, EnumCell(ty, e).i) == e
  {
    CastSame(ty.size, ty.signed, e);
    SameModulo(e, 0);
    SameModulo(e, 1);
    SameModulo64(e, 0);
    SameModulo64(e, 1);
  }

  // ------------------------------------------------------------------
  // Writing
  // ------------------------------------------------------------------

  /** A write appends a cell, or fails when the parcel is full. */
  function Put(data: seq<Cell>, capacity: nat, c: Cell): (seq<Cell>, bool) {
    if |data| < capacity then (data + [c], true) else (data, false)
  }

  /** `BaseTypesToParcel`: type code and value; for any other type the invalid code and a failure. */
  function PutBase(data: seq<Cell>, capacity: nat, v: Any): (seq<Cell>, bool) {
    if !IsBase(v) then (Put(data, capacity, I32(INVALID_TYPE)).0, false)
    else
      var (d, ok) := Put(data, capacity, I32(BaseCode(v)));
      if ok then Put(d, capacity, BaseCell(v)) else (d, false)
  }

  /**
   `Any::ToParcel`.  When the base path fails, a value of at most eight bytes
   takes the enumeration path, which writes something for enumerations only and
   reports success in any case.
   */
  function PutAny(data: seq<Cell>, capacity: nat, v: Any): (seq<Cell>, bool) {
    if v.Nothing? then (data, false)
    else
      var (d, ok) := PutBase(data, capacity, v);
      if ok then (d, true)
      else if IsWide(v) then (d, false)
      else if v.Enum? then (Put(d, capacity, EnumCell(v.ty, v.e)).0, true)
      else (d, true)
  }

  /** `GetValueType`; `wideTags` are the tags with 64-bit accessors. */
  function ValueType(wideTags: set<string>, key: string, v: Any): int {
    if IsBase(v) && !v.UInt64? then BaseCode(v) else if key in wideTags then 7 else 5
  }

  function PutEntry(data: seq<Cell>, capacity: nat, wideTags: set<string>, key: string, v: Any): (seq<Cell>, bool) {
    var (d1, ok1) := Put(data, capacity, Str(key));
    if !ok1 then (d1, false)
    else
      var (d2, ok2) := Put(d1, capacity, I32(ValueType(wideTags, key, v)));
      if !ok2 then (d2, false) else PutAny(d2, capacity, v)
  }

  type MetaMap = map<string, Any>

  /** Entries in the given order, up to the first that fails. */
  ghost function PutEntries(data: seq<Cell>, capacity: nat, wideTags: set<string>, m: MetaMap, order: seq<string>): (seq<Cell>, bool)
    requires Elems(order) <= m.Keys
  {
    if order == [] then (data, true)
    else
      var last := order[|order| - 1];
      assert last in Elems(order) && Elems(order[..|order| - 1]) <= Elems(order);
      var (d, ok) := PutEntries(data, capacity, wideTags, m, order[..|order| - 1]);
      if ok then PutEntry(d, capacity, wideTags, last, m[last]) else (d, false)
  }

  /** `order` lists the keys of the map, each once. */
  ghost predicate Lists(order: seq<string>, m: MetaMap) {
    Distinct(order) && Elems(order) == m.Keys
  }

  ghost function PutMeta(data: seq<Cell>, capacity: nat, wideTags: set<string>, m: MetaMap, order: seq<string>): (seq<Cell>, bool)
    requires Elems(order) <= m.Keys
  {
    var (d, ok) := Put(data, capacity, I32(Cast(4, true, |m|)));
    if ok then PutEntries(d, capacity, wideTags, m, order) else (d, false)
  }

  /** Writing never touches what was written before. */
  lemma EntryGrows(data: seq<Cell>, capacity: nat, wideTags: set<string>, key: string, v: Any)
    ensures data <= PutEntry(data, capacity, wideTags, key, v).0
  {
  }

  lemma OneMore(data: seq<Cell>, capacity: nat, wideTags: set<string>, m: MetaMap, order: seq<string>, key: string)
    requires Elems(order) <= m.Keys && key in m && key !in order && Distinct(order)
    ensures Elems(order + [key]) == Elems(order) + {key} && Distinct(order + [key])
    ensures
      var p := PutEntries(data, capacity, wideTags, m, order);
      PutEntries(data, capacity, wideTags, m, order + [key]) ==
      if p.1 then PutEntry(p.0, capacity, wideTags, key, m[key]) else (p.0, false)
  {
  }

  class MessageParcel {
    var buffer: seq<Cell>
    var writePos: nat
    var dataSize: nat
    var readPos: nat
    const capacity: nat

    constructor (capacity: nat)
      ensures Valid() && Data() == [] && this.capacity == capacity
    {
      buffer, writePos, dataSize, readPos := [], 0, 0, 0;
      this.capacity := capacity;
    }

    ghost predicate Valid()
      reads this
    {
      readPos <= dataSize == writePos <= |buffer|
    }

    /** What has been written. */
    ghost function Data(): seq<Cell>
      requires Valid()
      reads this
    {
      buffer[..dataSize]
    }

    method Write(c: Cell) returns (ok: bool)
      requires Valid()
      modifies this`buffer, this`writePos, this`dataSize
      ensures Valid()
      ensures (Data(), ok) == Put(old(Data()), capacity, c)
    {
      if writePos >= capacity {
        return false;
      }
      buffer := buffer[..writePos] + [c] + if writePos < |buffer| then buffer[writePos + 1..] else [];
      writePos, dataSize := writePos + 1, dataSize + 1;
      return true;
    }

    method RewindWrite(pos: nat)
      modifies this`writePos
      ensures writePos == pos
    {
      writePos := pos;
    }

    method SetDataSize(size: nat)
      modifies this`dataSize
      ensures dataSize == size
    {
      dataSize := size;
    }

    /** What is left to read. */
    ghost function Rest(): seq<Cell>
      requires Valid()
      reads this
    {
      buffer[readPos..dataSize]
    }

    method ReadInt32() returns (i: int)
      requires Valid()
      modifies this`readPos
      ensures Valid() && (i, Rest()) == TakeI32(old(Rest()))
    {
      if readPos < dataSize && buffer[readPos].I32? {
        i, readPos := buffer[readPos].i, readPos + 1;
      } else {
        i := 0;
      }
    }

    method ReadInt64() returns (i: int)
      requires Valid()
      modifies this`readPos
      ensures Valid() && (i, Rest()) == TakeI64(old(Rest()))
    {
      if readPos < dataSize && buffer[readPos].I64? {
        i, readPos := buffer[readPos].i, readPos + 1;
      } else {
        i := 0;
      }
    }

    method ReadString() returns (s: string)
      requires Valid()
      modifies this`readPos
      ensures Valid() && (s, Rest()) == TakeStr(old(Rest()))
    {
      if readPos < dataSize && buffer[readPos].Str? {
        s, readPos := buffer[readPos].s, readPos + 1;
      } else {
        s := "";
      }
    }

    /** Reads a value of the other base types. */
    method ReadPlain(code: int) returns (v: Any)
      requires Valid() && IsBaseCode(code)
      modifies this`readPos
      ensures Valid() && (v, Rest()) == TakePlain(code, old(Rest()))
    {
      if readPos < dataSize && IsPlain(code, buffer[readPos]) {
        v, readPos := buffer[readPos].v, readPos + 1;
      } else {
        v := Zero(code);
      }
    }
  }

  // ------------------------------------------------------------------
  // Reading
  // ------------------------------------------------------------------

  function TakeI32(cells: seq<Cell>): (int, seq<Cell>) {
    if cells != [] && cells[0].I32? then (cells[0].i, cells[1..]) else (0, cells)
  }

  function TakeI64(cells: seq<Cell>): (int, seq<Cell>) {
    if cells != [] && cells[0].I64? then (cells[0].i, cells[1..]) else (0, cells)
  }

  function TakeStr(cells: seq<Cell>): (string, seq<Cell>) {
    if cells != [] && cells[0].Str? then (cells[0].s, cells[1..]) else ("", cells)
  }

  /** The codes that the base type reader has a handler for. */
  predicate IsBaseCode(code: int) {
    code == 2 || 5 <= code <= 11 || 13 <= code <= 15
  }

  predicate IsPlain(code: int, c: Cell) {
    c.Plain? && IsBase(c.v) && BaseCode(c.v) == code
  }

  /** What a failed read of a base type yields. */
  function Zero(code: int): Any {
    match code
    case 2 => Bool(false)
    case 5 => Int32(0)
    case 6 => UInt32(0)
    case 7 => Int64(0)
    case 8 => UInt64(0)
    case 9 => Float(0)
    case 10 => Double(0)
    case 11 => VectorUInt8([])
    case 14 => VectorInt32([])
    case 15 => VectorInt64([])
    case _ => Text("")
  }

  function TakePlain(code: int, cells: seq<Cell>): (Any, seq<Cell>) {
    if cells != [] && IsPlain(code, cells[0]) then (cells[0].v, cells[1..]) else (Zero(code), cells)
  }

  function TakeBase(code: int, cells: seq<Cell>): (Any, seq<Cell>) {
    if code == 5 then var (i, r) := TakeI32(cells); (Int32(i), r)
    else if code == 7 then var (i, r) := TakeI64(cells); (Int64(i), r)
    else if code == 13 then var (s, r) := TakeStr(cells); (Text(s), r)
    else TakePlain(code, cells)
  }

  datatype Option<T> = None | Some(value: T)

  /** The registered default of a tag matters for its enumeration type only. */
  type TagTable = map<string, Option<EnumType>>

  function DefaultType(table: TagTable, key: string): Option<EnumType> {
    if key in table then table[key] else None
  }

  /** A parse so far: whether it still succeeds, what it made, and what is left to read. */
  datatype Parse<T> = Parse(ok: bool, made: T, rest: seq<Cell>)

  function TakeEnum(ty: EnumType, cells: seq<Cell>): (Any, seq<Cell>) {
    var (i, r) := if ty.size == 8 then TakeI64(cells) else TakeI32(cells);
    (Enum(ty, Cast(ty.size, ty.signed, i)), r)
  }

  /** `Any::FromParcel` on a default value of the given type. */
  function TakeAny(default: Option<EnumType>, cells: seq<Cell>): Parse<Any> {
    var (code, r) := TakeI32(cells);
    if IsBaseCode(code) then
      var (v, r') := TakeBase(code, r);
      Parse(true, v, r')
    else if code == INVALID_TYPE && default.Some? then
      var (v, r') := TakeEnum(default.value, r);
      Parse(true, v, r')
    else Parse(false, Nothing, r)
  }

  function TakeEntry(table: TagTable, p: Parse<MetaMap>): Parse<MetaMap> {
    if !p.ok then p
    else
      var (key, r1) := TakeStr(p.rest);
      var (_, r2) := TakeI32(r1);
      var v := TakeAny(DefaultType(table, key), r2);
      Parse(v.ok, if v.ok then p.made[key := v.made] else p.made, v.rest)
  }

  function TakeEntries(table: TagTable, n: nat, cells: seq<Cell>): Parse<MetaMap> {
    if n == 0 then Parse(true, map[], cells) else TakeEntry(table, TakeEntries(table, n - 1, cells))
  }

  function TakeMeta(table: TagTable, rawCapacity: nat, cells: seq<Cell>): Parse<MetaMap> {
    var (size, r) := TakeI32(cells);
    if size < 0 || size > rawCapacity then Parse(false, map[], r) else TakeEntries(table, size, r)
  }

  // ------------------------------------------------------------------
  // The codec as code
  // ------------------------------------------------------------------

  method BaseTypesToParcel(v: Any, parcel: MessageParcel) returns (ok: bool)
    requires parcel.Valid()
    modifies parcel`buffer, parcel`writePos, parcel`dataSize
    ensures parcel.Valid() && (parcel.Data(), ok) == PutBase(old(parcel.Data()), parcel.capacity, v)
  {
    if !IsBase(v) {
      var _ := parcel.Write(I32(INVALID_TYPE));
      return false;
    }
    ok := parcel.Write(I32(BaseCode(v)));
    if ok {
      ok := parcel.Write(BaseCell(v));
    }
  }

  method AnyToParcel(v: Any, parcel: MessageParcel) returns (ok: bool)
    requires parcel.Valid()
    modifies parcel`buffer, parcel`writePos, parcel`dataSize
    ensures parcel.Valid() && (parcel.Data(), ok) == PutAny(old(parcel.Data()), parcel.capacity, v)
  {
    if v.Nothing? {
      return false;
    }
    ok := BaseTypesToParcel(v, parcel);
    if ok {
      return true;
    }
    if IsWide(v) {
      return false;
    }
    if v.Enum? {
      var _ := parcel.Write(EnumCell(v.ty, v.e));
    }
    return true;
  }

  method EntryToParcel(key: string, v: Any, parcel: MessageParcel, wideTags: set<string>) returns (ok: bool)
    requires parcel.Valid()
    modifies parcel`buffer, parcel`writePos, parcel`dataSize
    ensures parcel.Valid() && (parcel.Data(), ok) == PutEntry(old(parcel.Data()), parcel.capacity, wideTags, key, v)
  {
    ok := parcel.Write(Str(key));
    if ok {
      ok := parcel.Write(I32(ValueType(wideTags, key, v)));
    }
    if ok {
      ok := AnyToParcel(v, parcel);
    }
  }

  lemma NoEntries(data: seq<Cell>, capacity: nat, wideTags: set<string>, m: MetaMap)
    ensures Elems<string>([]) == {} && Distinct<string>([])
    ensures PutEntries(data, capacity, wideTags, m, []) == (data, true)
  {
  }

  method AnyFromParcel(default: Option<EnumType>, parcel: MessageParcel) returns (ok: bool, v: Any)
    requires parcel.Valid()
    modifies parcel`readPos
    ensures parcel.Valid() && Parse(ok, v, parcel.Rest()) == TakeAny(default, old(parcel.Rest()))
  {
    var code := parcel.ReadInt32();
    if IsBaseCode(code) {
      if code == 5 {
        var i := parcel.ReadInt32();
        return true, Int32(i);
      } else if code == 7 {
        var i := parcel.ReadInt64();
        return true, Int64(i);
      } else if code == 13 {
        var s := parcel.ReadString();
        return true, Text(s);
      } else {
        v := parcel.ReadPlain(code);
        return true, v;
      }
    }
    if code == INVALID_TYPE && default.Some? {
      var ty := default.value;
      var i;
      if ty.size == 8 {
        i := parcel.ReadInt64();
      } else {
        i := parcel.ReadInt32();
      }
      return true, Enum(ty, Cast(ty.size, ty.signed, i));
    }
    return false, Nothing;
  }

  class Meta {
    var map_: MetaMap

    constructor ()
      ensures map_ == map[]
    {
      map_ := map[];
    }

    /**
     Writes the map, its keys in some order.  On failure what was written is
     taken back: contents and write position are as before.
     */
    method ToParcel(parcel: MessageParcel, wideTags: set<string>) returns (ok: bool, ghost order: seq<string>)
      requires parcel.Valid()
      modifies parcel`buffer, parcel`writePos, parcel`dataSize
      ensures parcel.Valid()
      ensures Distinct(order) && Elems(order) <= map_.Keys
      ensures ok ==> Lists(order, map_) && (parcel.Data(), true) == PutMeta(old(parcel.Data()), parcel.capacity, wideTags, map_, order)
      ensures !ok ==> parcel.Data() == old(parcel.Data()) && parcel.writePos == old(parcel.writePos)
      ensures !ok ==> !PutMeta(old(parcel.Data()), parcel.capacity, wideTags, map_, order).1
    {
      hide PutEntry, PutEntries, Distinct;
      NoEntries(parcel.Data(), parcel.capacity, wideTags, map_);
      var oldPos, oldSize := parcel.writePos, parcel.dataSize;
      ghost var before := parcel.Data();
      order := [];
      ok := parcel.Write(I32(Cast(4, true, |map_|)));
      if !ok {
        return false, [];
      }
      ghost var start := parcel.Data();
      NoEntries(start, parcel.capacity, wideTags, map_);
      var rest := map_.Keys;
      while rest != {}
        invariant parcel.Valid() && rest <= map_.Keys
        invariant Distinct(order) && Elems(order) == map_.Keys - rest
        invariant before <= parcel.Data()
        invariant (parcel.Data(), true) == PutEntries(start, parcel.capacity, wideTags, map_, order)
        decreases rest
      {
        var key :| key in rest;
        rest := rest - {key};
        assert key !in Elems(order);
        OneMore(start, parcel.capacity, wideTags, map_, order, key);
        EntryGrows(parcel.Data(), parcel.capacity, wideTags, key, map_[key]);
        order := order + [key];
        ok := EntryToParcel(key, map_[key], parcel, wideTags);
        if !ok {
          parcel.RewindWrite(oldPos);
          parcel.SetDataSize(oldSize);
          return false, order;
        }
      }
      return true, order;
    }

    /** Reads the map back; on failure the entries read so far stay in the map. */
    method FromParcel(parcel: MessageParcel, table: TagTable, rawCapacity: nat) returns (ok: bool)
      requires parcel.Valid()
      modifies this, parcel`readPos
      ensures parcel.Valid()
      ensures Parse(ok, map_, parcel.Rest()) == TakeMeta(table, rawCapacity, old(parcel.Rest()))
    {
      map_ := map[];
      var size := parcel.ReadInt32();
      if size < 0 || size > rawCapacity {
        return false;
      }
      ghost var cells := parcel.Rest();
      for index := 0 to size
        invariant parcel.Valid()
        invariant Parse(true, map_, parcel.Rest()) == TakeEntries(table, index, cells)
      {
        var key := parcel.ReadString();
        var _ := parcel.ReadInt32();
        var good, value := AnyFromParcel(DefaultType(table, key), parcel);
        if !good {
          Failed(table, index + 1, size, cells);
          return false;
        }
        map_ := map_[key := value];
      }
      return true;
    }
  }

  /** A failed entry ends the parse. */
  lemma {:induction false} Failed(table: TagTable, n: nat, m: nat, cells: seq<Cell>)
    requires n <= m && !TakeEntries(table, n, cells).ok
    ensures TakeEntries(table, m, cells) == TakeEntries(table, n, cells)
    decreases m
  {
    if n < m {
      Failed(table, n, m - 1, cells);
    }
  }

  // ------------------------------------------------------------------
  // Round trip
  // ------------------------------------------------------------------

  /** `ToParcel` refuses a value of this kind, whatever the room. */
  predicate Refused(v: Any) {
    v.Large? || v.Nothing?
  }

  /** What a value becomes in a parcel with room. */
  function Encoded(v: Any): seq<Cell> {
    if IsBase(v) then [I32(BaseCode(v)), BaseCell(v)]
    else if v.Enum? then [I32(INVALID_TYPE), EnumCell(v.ty, v.e)]
    else [I32(INVALID_TYPE)]
  }

  function EncodedEntry(wideTags: set<string>, key: string, v: Any): seq<Cell> {
    [Str(key), I32(ValueType(wideTags, key, v))] + Encoded(v)
  }

  ghost function EncodedEntries(wideTags: set<string>, m: MetaMap, order: seq<string>): seq<Cell>
    requires Elems(order) <= m.Keys
  {
    if order == [] then []
    else
      var last := order[|order| - 1];
      assert last in Elems(order) && Elems(order[..|order| - 1]) <= Elems(order);
      EncodedEntries(wideTags, m, order[..|order| - 1]) + EncodedEntry(wideTags, last, m[last])
  }

  ghost function EncodedMeta(wideTags: set<string>, m: MetaMap, order: seq<string>): seq<Cell>
    requires Elems(order) <= m.Keys
  {
    [I32(Cast(4, true, |m|))] + EncodedEntries(wideTags, m, order)
  }

  /** The cells of a value: a type code of `AnyValueType`, then the value in the cell of its type. */
  lemma WireFormat(v: Any)
    ensures v.Bool? ==> Encoded(v) == [I32(2), Plain(v)]
    ensures v.Int32? ==> Encoded(v) == [I32(5), I32(v.i)]
    ensures v.UInt32? ==> Encoded(v) == [I32(6), Plain(v)]
    ensures v.Int64? ==> Encoded(v) == [I32(7), I64(v.i)]
    ensures v.UInt64? ==> Encoded(v) == [I32(8), Plain(v)]
    ensures v.Float? ==> Encoded(v) == [I32(9), Plain(v)]
    ensures v.Double? ==> Encoded(v) == [I32(10), Plain(v)]
    ensures v.VectorUInt8? ==> Encoded(v) == [I32(11), Plain(v)]
    ensures v.Text? ==> Encoded(v) == [I32(13), Str(v.s)]
    ensures v.VectorInt32? ==> Encoded(v) == [I32(14), Plain(v)]
    ensures v.VectorInt64? ==> Encoded(v) == [I32(15), Plain(v)]
    ensures v.Small? ==> Encoded(v) == [I32(1)]
    ensures v.Enum? && ValidEnum(v) ==> Encoded(v) == [I32(1), EnumWire(v.ty, v.e)]
  {
    if v.Enum? && ValidEnum(v) {
      EnumWired(v.ty, v.e);
    }
  }

  /** An enumeration value as a signed number of 64 bits for an eight-byte type, of 32 bits for any other. */
  function EnumWire(ty: EnumType, e: int): Cell {
    if ty.size == 8 then I64(if e >= 0x8000_0000_0000_0000 then e - 0x1_0000_0000_0000_0000 else e)
    else I32(if e >= 0x8000_0000 then e - 0x1_0000_0000 else e)
  }

  lemma EnumWired(ty: EnumType, e: int)
    requires ValidEnum(Enum(ty, e))
    ensures EnumCell(ty, e) == EnumWire(ty, e)
  {
    hide Cast;
    if ty.size == 8 {
      Signed64(e);
    } else {
      Signed32(e);
    }
  }

  lemma Signed64(e: int)
    requires -0x8000_0000_0000_0000 <= e < 0x1_0000_0000_0000_0000
    ensures Cast(8, true, e) == if e >= 0x8000_0000_0000_0000 then e - 0x1_0000_0000_0000_0000 else e
  {
  }

  lemma Signed32(e: int)
    requires -0x8000_0000 <= e < 0x1_0000_0000
    ensures Cast(4, true, e) == if e >= 0x8000_0000 then e - 0x1_0000_0000 else e
  {
  }

  /** An entry: key, announced type, value.  Values without a type of their own are announced as integers. */
  lemma EntryFormat(wideTags: set<string>, key: string, v: Any)
    ensures EncodedEntry(wideTags, key, v)[..2] ==
      [Str(key), I32(if IsBase(v) && !v.UInt64? then Encoded(v)[0].i else if key in wideTags then 7 else 5)]
    ensures EncodedEntry(wideTags, key, v)[2..] == Encoded(v)
  {
  }

  /** A map: the number of entries, then one entry after the other. */
  lemma MetaFormat(wideTags: set<string>, m: MetaMap, order: seq<string>, key: string)
    requires Elems(order + [key]) <= m.Keys && Elems(order) <= m.Keys && key in m && |m| < 0x8000_0000
    ensures EncodedMeta(wideTags, m, order + [key]) ==
      EncodedMeta(wideTags, m, order) + [Str(key)] + EncodedEntry(wideTags, key, m[key])[1..]
    ensures EncodedMeta(wideTags, m, []) == [I32(|m|)]
  {
    CastSame(4, true, |m|);
    assert (order + [key])[..|order|] == order;
    assert EncodedEntry(wideTags, key, m[key]) == [Str(key)] + EncodedEntry(wideTags, key, m[key])[1..];
  }

  lemma EntryFits(data: seq<Cell>, capacity: nat, wideTags: set<string>, key: string, v: Any)
    requires !Refused(v) && |data| + |EncodedEntry(wideTags, key, v)| <= capacity
    ensures PutEntry(data, capacity, wideTags, key, v) == (data + EncodedEntry(wideTags, key, v), true)
  {
    var tag := [Str(key)] + [I32(ValueType(wideTags, key, v))];
    assert data + [Str(key)] + [I32(ValueType(wideTags, key, v))] == data + tag;
    if IsBase(v) {
      assert (data + tag) + [I32(BaseCode(v))] + [BaseCell(v)] == data + EncodedEntry(wideTags, key, v);
    } else if v.Enum? {
      assert (data + tag) + [I32(INVALID_TYPE)] + [EnumCell(v.ty, v.e)] == data + EncodedEntry(wideTags, key, v);
    } else {
      assert (data + tag) + [I32(INVALID_TYPE)] == data + EncodedEntry(wideTags, key, v);
    }
  }

  /** In a parcel with room, writing succeeds on every map without a refused value, and appends its encoding. */
  lemma {:induction false} EntriesFit(data: seq<Cell>, capacity: nat, wideTags: set<string>, m: MetaMap, order: seq<string>)
    requires Elems(order) <= m.Keys && forall k :: k in order ==> k in m && !Refused(m[k])
    requires |data| + |EncodedEntries(wideTags, m, order)| <= capacity
    ensures PutEntries(data, capacity, wideTags, m, order) == (data + EncodedEntries(wideTags, m, order), true)
  {
    if order == [] {
      assert data + [] == data;
    } else {
      var init, last := order[..|order| - 1], order[|order| - 1];
      assert last in Elems(order) && Elems(init) <= Elems(order);
      EntriesFit(data, capacity, wideTags, m, init);
      EntryFits(data + EncodedEntries(wideTags, m, init), capacity, wideTags, last, m[last]);
      var entry := EncodedEntry(wideTags, last, m[last]);
      assert data + EncodedEntries(wideTags, m, init) + entry == data + (EncodedEntries(wideTags, m, init) + entry);
    }
  }

  lemma MetaFits(data: seq<Cell>, capacity: nat, wideTags: set<string>, m: MetaMap, order: seq<string>)
    requires Lists(order, m) && forall k :: k in m ==> !Refused(m[k])
    requires |data| + |EncodedMeta(wideTags, m, order)| <= capacity
    ensures PutMeta(data, capacity, wideTags, m, order) == (data + EncodedMeta(wideTags, m, order), true)
  {
    assert forall k :: k in order ==> k in Elems(order);
    var count := [I32(Cast(4, true, |m|))];
    EntriesFit(data + count, capacity, wideTags, m, order);
    assert data + count + EncodedEntries(wideTags, m, order) == data + EncodedMeta(wideTags, m, order);
  }

  /** A refused value makes every attempt to write the map fail. */
  lemma {:induction false} RefusedFails(data: seq<Cell>, capacity: nat, wideTags: set<string>, m: MetaMap, order: seq<string>)
    requires Elems(order) <= m.Keys
    requires exists k :: k in order && k in m && Refused(m[k])
    ensures !PutEntries(data, capacity, wideTags, m, order).1
  {
    var init, last := order[..|order| - 1], order[|order| - 1];
    assert last in Elems(order) && Elems(init) <= Elems(order);
    if !Refused(m[last]) {
      var k :| k in order && k in m && Refused(m[k]);
      assert order == init + [last];
      assert k in init;
      RefusedFails(data, capacity, wideTags, m, init);
    }
  }

  /** A value that survives under a tag with this default: a base value, or an enumeration of the default's type. */
  predicate Parcelable(default: Option<EnumType>, v: Any) {
    IsBase(v) || (v.Enum? && ValidEnum(v) && default == Some(v.ty))
  }

  lemma AnyRoundTrip(default: Option<EnumType>, v: Any, rest: seq<Cell>)
    requires Parcelable(default, v)
    ensures TakeAny(default, Encoded(v) + rest) == Parse(true, v, rest)
  {
    var cells := Encoded(v) + rest;
    assert cells[1..] == [Encoded(v)[1]] + rest;
    assert cells[1..][1..] == rest;
    if v.Enum? {
      EnumTravels(v.ty, v.e);
    }
  }

  /** A written value comes back, whatever follows it, exactly when it is parcelable under its tag. */
  lemma AnyRoundTripExact(default: Option<EnumType>, v: Any)
    requires !Refused(v) && ValidEnum(v)
    ensures Parcelable(default, v) <==> forall rest :: TakeAny(default, Encoded(v) + rest) == Parse(true, v, rest)
  {
    if Parcelable(default, v) {
      forall rest
        ensures TakeAny(default, Encoded(v) + rest) == Parse(true, v, rest)
      {
        AnyRoundTrip(default, v, rest);
      }
    } else {
      var got := TakeAny(default, Encoded(v) + []);
      assert Encoded(v) + [] == Encoded(v);
      assert Encoded(v)[0] == I32(INVALID_TYPE);
      assert got != Parse(true, v, []);
    }
  }

  /** The entries of `order`, as a map. */
  ghost function Part(m: MetaMap, order: seq<string>): MetaMap
    requires Elems(order) <= m.Keys
  {
    map k | k in m && k in order :: m[k]
  }

  lemma {:induction false} EntriesRoundTrip(table: TagTable, wideTags: set<string>, m: MetaMap, order: seq<string>, rest: seq<Cell>)
    requires Elems(order) <= m.Keys && forall k :: k in order ==> k in m && Parcelable(DefaultType(table, k), m[k])
    ensures TakeEntries(table, |order|, EncodedEntries(wideTags, m, order) + rest) == Parse(true, Part(m, order), rest)
  {
    hide EncodedEntry, TakeEntry, Parcelable, DefaultType;
    if order == [] {
      assert [] + rest == rest;
      assert Part(m, []) == map[];
    } else {
      var init, last := order[..|order| - 1], order[|order| - 1];
      assert last in Elems(order) && Elems(init) <= Elems(order);
      assert order == init + [last];
      var entry := EncodedEntry(wideTags, last, m[last]);
      assert EncodedEntries(wideTags, m, order) + rest == EncodedEntries(wideTags, m, init) + (entry + rest);
      EntriesRoundTrip(table, wideTags, m, init, entry + rest);
      EntryRoundTrip(table, wideTags, last, m[last], Part(m, init), rest);
      assert Part(m, order) == Part(m, init)[last := m[last]];
    }
  }

  lemma EntryRoundTrip(table: TagTable, wideTags: set<string>, key: string, v: Any, made: MetaMap, rest: seq<Cell>)
    requires Parcelable(DefaultType(table, key), v)
    ensures TakeEntry(table, Parse(true, made, EncodedEntry(wideTags, key, v) + rest)) == Parse(true, made[key := v], rest)
  {
    var cells := EncodedEntry(wideTags, key, v) + rest;
    assert cells[1..][1..] == Encoded(v) + rest;
    AnyRoundTrip(DefaultType(table, key), v, rest);
  }

  /**
   Round trip: for every map of parcelable values and whatever follows it in the
   parcel, reading what was written gives the map back and stops where it ended.
   */
  lemma MetaRoundTrip(table: TagTable, rawCapacity: nat, wideTags: set<string>, m: MetaMap, order: seq<string>, rest: seq<Cell>)
    requires Lists(order, m) && |m| <= rawCapacity && |m| < 0x8000_0000
    requires forall k :: k in m ==> Parcelable(DefaultType(table, k), m[k])
    ensures TakeMeta(table, rawCapacity, EncodedMeta(wideTags, m, order) + rest) == Parse(true, m, rest)
  {
    hide TakeEntries, Parcelable, EncodedEntries, DefaultType, Distinct;
    assert forall k :: k in order ==> k in Elems(order);
    CastSame(4, true, |m|);
    var cells := EncodedMeta(wideTags, m, order) + rest;
    assert cells[1..] == EncodedEntries(wideTags, m, order) + rest;
    DistinctSize(order);
    EntriesRoundTrip(table, wideTags, m, order, rest);
    assert Part(m, order) == m;
  }

  /** What the reader can make of an entry whose tag has this default: a base value, or an enumeration of the default's type. */
  predicate Readable(default: Option<EnumType>, v: Any) {
    IsBase(v) || (v.Enum? && default == Some(v.ty))
  }

  lemma AnyReadable(default: Option<EnumType>, cells: seq<Cell>)
    ensures TakeAny(default, cells).ok ==> Readable(default, TakeAny(default, cells).made)
  {
  }

  /** Whatever a parcel holds, what is read from it is of that kind under every tag. */
  lemma {:induction false} EntriesAreReadable(table: TagTable, n: nat, cells: seq<Cell>)
    ensures
      var made := TakeEntries(table, n, cells).made;
      forall k :: k in made ==> Readable(DefaultType(table, k), made[k])
  {
    hide Readable, TakeAny, DefaultType;
    if n > 0 {
      EntriesAreReadable(table, n - 1, cells);
      var p := TakeEntries(table, n - 1, cells);
      if p.ok {
        var (key, r1) := TakeStr(p.rest);
        AnyReadable(DefaultType(table, key), TakeI32(r1).1);
      }
    }
  }

  /** A map comes back from its own encoding, whatever follows, if and only if every value in it is parcelable. */
  lemma MetaRoundTripExact(table: TagTable, rawCapacity: nat, wideTags: set<string>, m: MetaMap, order: seq<string>, rest: seq<Cell>)
    requires Lists(order, m) && |m| <= rawCapacity && |m| < 0x8000_0000
    requires forall k :: k in m ==> ValidEnum(m[k])
    ensures TakeMeta(table, rawCapacity, EncodedMeta(wideTags, m, order) + rest) == Parse(true, m, rest) <==>
      forall k :: k in m ==> Parcelable(DefaultType(table, k), m[k])
  {
    hide TakeEntries, EncodedEntries, EncodedMeta, DefaultType, Distinct;
    if forall k :: k in m ==> Parcelable(DefaultType(table, k), m[k]) {
      MetaRoundTrip(table, rawCapacity, wideTags, m, order, rest);
    } else {
      var (size, cells) := TakeI32(EncodedMeta(wideTags, m, order) + rest);
      if 0 <= size {
        EntriesAreReadable(table, size, cells);
      }
    }
  }

  /** A count that is negative or beyond the parcel's capacity is refused, with an empty map; without a count the map is empty. */
  lemma CountChecked(table: TagTable, rawCapacity: nat, n: int, cells: seq<Cell>)
    requires n < 0 || n > rawCapacity
    ensures TakeMeta(table, rawCapacity, [I32(n)] + cells) == Parse(false, map[], cells)
    ensures TakeMeta(table, rawCapacity, []) == Parse(true, map[], [])
  {
    assert ([I32(n)] + cells)[1..] == cells;
  }

  /** Which type codes can be read: those of the base types, and the invalid code under a tag with an enumeration default. */
  lemma CodesRead(default: Option<EnumType>, code: int, cells: seq<Cell>)
    ensures TakeAny(default, [I32(code)] + cells).ok <==>
      code in {2, 5, 6, 7, 8, 9, 10, 11, 13, 14, 15} || (code == 1 && default.Some?)
  {
  }

  /** A base type whose value is missing reads as false, zero or empty. */
  lemma MissingValues(default: Option<EnumType>)
    ensures TakeAny(default, [I32(2)]).made == Bool(false)
    ensures TakeAny(default, [I32(5)]).made == Int32(0) && TakeAny(default, [I32(6)]).made == UInt32(0)
    ensures TakeAny(default, [I32(7)]).made == Int64(0) && TakeAny(default, [I32(8)]).made == UInt64(0)
    ensures TakeAny(default, [I32(9)]).made == Float(0) && TakeAny(default, [I32(10)]).made == Double(0)
    ensures TakeAny(default, [I32(11)]).made == VectorUInt8([]) && TakeAny(default, [I32(13)]).made == Text("")
    ensures TakeAny(default, [I32(14)]).made == VectorInt32([]) && TakeAny(default, [I32(15)]).made == VectorInt64([])
  {
  }

  /** An enumeration value under the tag of another of the same carrier comes back as a value of the other. */
  lemma EnumMistaken(other: EnumType, ty: EnumType, e: int, rest: seq<Cell>)
    requires ValidEnum(Enum(ty, e)) && (ty.size == 8 <==> other.size == 8)
    ensures TakeAny(Some(other), Encoded(Enum(ty, e)) + rest) ==
      Parse(true, Enum(other, Cast(other.size, other.signed, EnumWire(ty, e).i)), rest)
  {
    EnumWired(ty, e);
    var cells := Encoded(Enum(ty, e)) + rest;
    assert cells[1..] == [EnumWire(ty, e)] + rest && cells[1..][1..] == rest;
  }

  /** The reader gives up on a value: no type code of a base type, and no enumeration to fall back on. */
  predicate Unreadable(default: Option<EnumType>, v: Any) {
    (v.Small? || v.Enum?) && default.None?
  }

  lemma EntryUnreadable(table: TagTable, wideTags: set<string>, key: string, v: Any, made: MetaMap, rest: seq<Cell>)
    requires Unreadable(DefaultType(table, key), v)
    ensures !TakeEntry(table, Parse(true, made, EncodedEntry(wideTags, key, v) + rest)).ok
    ensures TakeEntry(table, Parse(true, made, EncodedEntry(wideTags, key, v) + rest)).made == made
  {
  }

  /**
   `ToParcel` accepts small values of other types, such as int8_t, and enumerations
   without a registered default; reading such a parcel back then fails.  Among maps
   whose other values are parcelable, it succeeds exactly when there is no such value.
   */
  lemma {:induction false} EntriesReadable(table: TagTable, wideTags: set<string>, m: MetaMap, order: seq<string>, rest: seq<Cell>)
    requires Elems(order) <= m.Keys
    requires forall k :: k in order ==>
      k in m && (Parcelable(DefaultType(table, k), m[k]) || Unreadable(DefaultType(table, k), m[k]))
    ensures TakeEntries(table, |order|, EncodedEntries(wideTags, m, order) + rest).ok <==>
      forall k :: k in order ==> Parcelable(DefaultType(table, k), m[k])
  {
    hide TakeEntry, Parcelable, Unreadable, EncodedEntry, DefaultType;
    if order != [] {
      var init, last := order[..|order| - 1], order[|order| - 1];
      assert last in Elems(order) && Elems(init) <= Elems(order);
      assert order == init + [last];
      var entry := EncodedEntry(wideTags, last, m[last]);
      assert EncodedEntries(wideTags, m, order) + rest == EncodedEntries(wideTags, m, init) + (entry + rest);
      EntriesReadable(table, wideTags, m, init, entry + rest);
      if forall k :: k in init ==> Parcelable(DefaultType(table, k), m[k]) {
        EntriesRoundTrip(table, wideTags, m, init, entry + rest);
        if Parcelable(DefaultType(table, last), m[last]) {
          EntryRoundTrip(table, wideTags, last, m[last], Part(m, init), rest);
        } else {
          EntryUnreadable(table, wideTags, last, m[last], Part(m, init), rest);
        }
      } else {
        Failed(table, |init|, |order|, EncodedEntries(wideTags, m, order) + rest);
      }
    }
  }

  /** An int8_t is written without complaint, and the parcel cannot be read. */
  lemma SmallIsLost(key: string, kind: nat, raw: int)
    ensures PutMeta([], 4, {}, map[key := Small(kind, raw)], [key]) == (SmallCells(key), true)
    ensures !TakeMeta(map[], 4, SmallCells(key)).ok
  {
    SmallEncoded(key, kind, raw);
    SmallUnread(key);
    MetaFits([], 4, {}, map[key := Small(kind, raw)], [key]);
    assert [] + SmallCells(key) == SmallCells(key);
  }

  function SmallCells(key: string): seq<Cell> {
    [I32(1), Str(key), I32(5), I32(INVALID_TYPE)]
  }

  lemma SmallEncoded(key: string, kind: nat, raw: int)
    ensures Lists([key], map[key := Small(kind, raw)])
    ensures EncodedMeta({}, map[key := Small(kind, raw)], [key]) == SmallCells(key)
  {
    var m: MetaMap := map[key := Small(kind, raw)];
    assert [key][..0] == [] && EncodedEntries({}, m, []) == [];
    assert EncodedEntry({}, key, m[key]) == [Str(key), I32(5), I32(INVALID_TYPE)];
  }

  lemma SmallUnread(key: string)
    ensures !TakeMeta(map[], 4, SmallCells(key)).ok
  {
    var cells := [Str(key), I32(5), I32(INVALID_TYPE)];
    assert SmallCells(key)[1..] == cells && cells[1..][1..] == [I32(INVALID_TYPE)];
    assert TakeEntries(map[], 0, cells) == Parse(true, map[], cells);
    assert !TakeEntries(map[], 1, cells).ok;
  }

  /**
   A full parcel goes unnoticed for scalars: the base path fails, the value takes
   the enumeration path, and the write is reported as a success with cells missing.
   */
  lemma FullParcelUnnoticed(data: seq<Cell>, capacity: nat, v: Any)
    requires !v.Nothing? && !IsWide(v)
    ensures PutAny(data, capacity, v).1
    ensures PutAny(data, capacity, v).0 == data + Encoded(v) <==> |data| + |Encoded(v)| <= capacity
  {
    if |data| + 2 <= capacity {
      assert IsBase(v) ==> data + [I32(BaseCode(v))] + [BaseCell(v)] == data + Encoded(v);
      assert v.Enum? ==> data + [I32(INVALID_TYPE)] + [EnumCell(v.ty, v.e)] == data + Encoded(v);
    }
  }

  lemma {:induction false} EntriesStayWithin(data: seq<Cell>, capacity: nat, wideTags: set<string>, m: MetaMap, order: seq<string>)
    requires Elems(order) <= m.Keys && |data| <= capacity
    ensures |PutEntries(data, capacity, wideTags, m, order).0| <= capacity
  {
    if order != [] {
      var last := order[|order| - 1];
      assert last in Elems(order) && Elems(order[..|order| - 1]) <= Elems(order);
      EntriesStayWithin(data, capacity, wideTags, m, order[..|order| - 1]);
    }
  }

  /**
   The whole map arrives in the parcel exactly when there is room for its encoding,
   whatever status is reported; and then it can be read back.
   */
  lemma WholeMapExact(data: seq<Cell>, capacity: nat, wideTags: set<string>, m: MetaMap, order: seq<string>,
                      table: TagTable, rawCapacity: nat, rest: seq<Cell>)
    requires Lists(order, m) && |m| <= rawCapacity && |m| < 0x8000_0000
    requires forall k :: k in m ==> Parcelable(DefaultType(table, k), m[k])
    ensures
      var written := PutMeta(data, capacity, wideTags, m, order);
      && (written.0 == data + EncodedMeta(wideTags, m, order) <==> |data| + |EncodedMeta(wideTags, m, order)| <= capacity)
      && (written.0 == data + EncodedMeta(wideTags, m, order) ==>
            written.1 && TakeMeta(table, rawCapacity, written.0[|data|..] + rest) == Parse(true, m, rest))
  {
    var cells := EncodedMeta(wideTags, m, order);
    if |data| + |cells| <= capacity {
      MetaFits(data, capacity, wideTags, m, order);
      MetaRoundTrip(table, rawCapacity, wideTags, m, order, rest);
      assert (data + cells)[|data|..] == cells;
    } else if |data| < capacity {
      EntriesStayWithin(data + [I32(Cast(4, true, |m|))], capacity, wideTags, m, order);
    }
  }
}
