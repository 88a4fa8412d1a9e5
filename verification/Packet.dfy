/** The interpreter of binary records (soft_fido2/ctap/packet.py): a record is a list of
    named formats, packed and unpacked by `struct` without alignment. */
module Packet {
  import opened Bytes
  import CborCommands
  import PasskeyDevice

  /** A format letter with its byte-order mark, `<H` say; `9s`; `24x`; and `si`. */
  datatype Mark = Plain | Little | Big
  datatype Format = Int(width: nat, mark: Mark) | Raw(size: nat) | Padding(size: nat) | Char

  datatype Field = Field(name: string, fmt: Format)

  /** A Python int, `bytes`, or a list of numbers, which `struct.pack` takes for nothing. */
  datatype Value = Number(n: nat) | Octets(b: seq<byte>) | Items(b: seq<byte>)

  type Attributes = map<string, Value>

  /** `getattr(self, name, 0)`. */
  function Get(attrs: Attributes, name: string): Value {
    if name in attrs then attrs[name] else Number(0)
  }

  function SizeOf(f: Format): nat {
    match f
    case Int(w, _) => w
    case Raw(n) => n
    case Padding(n) => n
    case Char => 1
  }

  function Size(fields: seq<Field>): nat {
    if fields == [] then 0 else Size(fields[..|fields| - 1]) + SizeOf(fields[|fields| - 1].fmt)
  }

  // ---- One field ----

  function PackNumber(big: bool, v: nat, width: nat): Result<seq<byte>> {
    if v >= Pow256(width) then Raised else Success(if big then ToBE(v, width) else ToLE(v, width))
  }

  /** `struct.pack`: a number must fit, a byte string is cut or filled with zeros. The
      marks of a format are dropped: the record's own byte order rules. */
  function PackValue(big: bool, fmt: Format, v: Value): Result<seq<byte>> {
    match fmt
    case Int(w, _) => if v.Number? then PackNumber(big, v.n, w) else Raised
    case Raw(n) => if v.Octets? then Success((v.b + seq(n, i => 0))[..n]) else Raised
    case Padding(n) => Success(seq(n, i => 0))
    case Char => if v.Number? && v.n < 128 then Success([v.n]) else Raised
  }

  function UnpackValue(big: bool, fmt: Format, b: seq<byte>): Value {
    match fmt
    case Int(_, _) => Number(if big then FromBE(b) else FromLE(b))
    case _ => Octets(b)
  }

  /** What `unpack` does with a value when the field it takes it for is marked `<`. */
  function Swap(fmt: Format, v: Value): Result<Value> {
    if !(fmt.Int? && fmt.mark == Little) then Success(v)
    else if !v.Number? || v.n >= Pow256(fmt.width) then Raised
    else Success(Number(FromLE(ToBE(v.n, fmt.width))))
  }

  // ---- Whole records ----

  function Append(a: Result<seq<byte>>, b: Result<seq<byte>>): Result<seq<byte>> {
    if a.Success? && b.Success? then Success(a.value + b.value) else Raised
  }

  function PackAll(big: bool, fields: seq<Field>, attrs: Attributes): Result<seq<byte>> {
    if fields == [] then Success([])
    else
      var f := fields[|fields| - 1];
      Append(PackAll(big, fields[..|fields| - 1], attrs), PackValue(big, f.fmt, Get(attrs, f.name)))
  }

  /** `struct.unpack`: padding yields no value. */
  function Values(big: bool, fields: seq<Field>, buf: seq<byte>): seq<Value>
    requires |buf| == Size(fields)
  {
    if fields == [] then []
    else
      var f, at := fields[|fields| - 1], Size(fields[..|fields| - 1]);
      var front := Values(big, fields[..|fields| - 1], buf[..at]);
      if f.fmt.Padding? then front else front + [UnpackValue(big, f.fmt, buf[at..])]
  }

  lemma {:induction false} ValuesCount(big: bool, fields: seq<Field>, buf: seq<byte>)
    requires |buf| == Size(fields)
    ensures |Values(big, fields, buf)| <= |fields|
  {
    if fields != [] {
      ValuesCount(big, fields[..|fields| - 1], buf[..Size(fields[..|fields| - 1])]);
    }
  }

  /** The i-th value goes to the i-th field, padding or not. */
  function Assign(fields: seq<Field>, values: seq<Value>): Result<Attributes>
    requires |values| <= |fields|
  {
    if values == [] then Success(map[])
    else
      var last := |values| - 1;
      var before, v := Assign(fields, values[..last]), Swap(fields[last].fmt, values[last]);
      if before.Raised? || v.Raised? then Raised else Success(before.value[fields[last].name := v.value])
  }

  /** `unpack`: the attributes afterwards. */
  function UnpackAll(big: bool, fields: seq<Field>, buf: seq<byte>, attrs: Attributes): Result<Attributes> {
    if |buf| != Size(fields) then Raised
    else
      ValuesCount(big, fields, buf);
      match Assign(fields, Values(big, fields, buf))
      case Raised => Raised
      case Success(new_) => Success(attrs + new_)
  }

  class BaseStructure {
    const big: bool
    const fields: seq<Field>
    var attrs: Attributes

    constructor (big: bool, fields: seq<Field>, attrs: Attributes)
      ensures this.big == big && this.fields == fields && this.attrs == attrs
    {
      this.big, this.fields, this.attrs := big, fields, attrs;
    }

    method Pack() returns (r: Result<seq<byte>>)
      ensures r == PackAll(big, fields, attrs)
    {
      hide PackValue;
      var packed: seq<byte> := [];
      var failed := false;
      for i := 0 to |fields|
        invariant PackAll(big, fields[..i], attrs) == if failed then Raised else Success(packed)
      {
        assert fields[..i + 1][..i] == fields[..i];
        var v := PackValue(big, fields[i].fmt, Get(attrs, fields[i].name));
        if v.Raised? { failed := true; } else { packed := packed + v.value; }
      }
      assert fields[..|fields|] == fields;
      r := if failed then Raised else Success(packed);
    }

    /** Sets nothing when it raises. */
    method Unpack(buf: seq<byte>) returns (ok: bool)
      modifies this`attrs
      ensures
        var r := UnpackAll(big, fields, buf, old(attrs));
        ok == r.Success? && attrs == if ok then r.value else old(attrs)
    {
      hide Swap, Values;
      if |buf| != Size(fields) { return false; }
      var values := Values(big, fields, buf);
      ValuesCount(big, fields, buf);
      var keysVals: Attributes := map[];
      for i := 0 to |values|
        invariant Assign(fields, values[..i]) == Success(keysVals)
      {
        assert values[..i + 1][..i] == values[..i];
        var v := Swap(fields[i].fmt, values[i]);
        if v.Raised? {
          AssignRaises(fields, values, i + 1);
          return false;
        }
        keysVals := keysVals[fields[i].name := v.value];
      }
      assert values[..|values|] == values;
      attrs := attrs + keysVals;
      ok := true;
    }
  }

  lemma {:induction false} AssignRaises(fields: seq<Field>, values: seq<Value>, n: nat)
    requires n <= |values| <= |fields| && Assign(fields, values[..n]).Raised?
    ensures Assign(fields, values).Raised?
  {
    hide Swap;
    if n < |values| {
      assert values[..|values| - 1][..n] == values[..n];
      AssignRaises(fields, values[..|values| - 1], n);
    } else {
      assert values[..n] == values;
    }
  }

  // ---- Unpacking what was packed ----

  /** The value survives packing: a number that fits, a byte string of the exact length,
      an ASCII code. */
  predicate Fits(fmt: Format, v: Value) {
    match fmt
    case Int(w, _) => v.Number? && v.n < Pow256(w)
    case Raw(n) => v.Octets? && |v.b| == n
    case Padding(_) => true
    case Char => v.Number? && v.n < 128
  }

  lemma {:induction false} SizeOfFront(fields: seq<Field>, i: nat)
    requires i < |fields|
    ensures Size(fields[..i]) + SizeOf(fields[i].fmt) <= Size(fields)
  {
    var last := |fields| - 1;
    if i < last {
      SizeOfFront(fields[..last], i);
      assert fields[..last][..i] == fields[..i];
    }
  }

  lemma {:induction false} PackedSize(big: bool, fields: seq<Field>, attrs: Attributes)
    requires PackAll(big, fields, attrs).Success?
    ensures |PackAll(big, fields, attrs).value| == Size(fields)
  {
    if fields != [] {
      PackedSize(big, fields[..|fields| - 1], attrs);
    }
  }

  /** `b` is how `struct` writes `v`: a number in the record's byte order; a byte string cut
      or followed by zeros; zeros for padding; an ASCII code in one byte. */
  predicate Writes(big: bool, fmt: Format, v: Value, b: seq<byte>) {
    |b| == SizeOf(fmt) &&
    match fmt
    case Int(w, _) =>
      && v.Number? && v.n < Pow256(w)
      && forall j | 0 <= j < w :: b[j] == v.n / Pow256(if big then w - 1 - j else j) % 256
    case Raw(n) => v.Octets? && forall j | 0 <= j < n :: b[j] == if j < |v.b| then v.b[j] else 0
    case Padding(n) => forall j | 0 <= j < n :: b[j] == 0
    case Char => v.Number? && v.n < 128 && b == [v.n]
  }

  lemma PackWrites(big: bool, fmt: Format, v: Value)
    requires PackValue(big, fmt, v).Success?
    ensures Writes(big, fmt, v, PackValue(big, fmt, v).value)
  {
    hide ToBE, ToLE, Pow256;
    if fmt.Int? {
      forall j | 0 <= j < fmt.width
        ensures ToBE(v.n, fmt.width)[j] == v.n / Pow256(fmt.width - 1 - j) % 256
        ensures ToLE(v.n, fmt.width)[j] == v.n / Pow256(j) % 256
      {
        BEDigit(v.n, fmt.width, j);
        LEDigit(v.n, fmt.width, j);
      }
    }
  }

  /** `struct` can write the value: a number that fits its width, a byte string, an ASCII
      code; for padding it is not asked. */
  predicate Writable(fmt: Format, v: Value) {
    match fmt
    case Int(w, _) => v.Number? && v.n < Pow256(w)
    case Raw(_) => v.Octets?
    case Padding(_) => true
    case Char => v.Number? && v.n < 128
  }

  lemma PackIfWritable(big: bool, fmt: Format, v: Value)
    ensures PackValue(big, fmt, v).Success? <==> Writable(fmt, v)
  {
    hide Pow256;
  }

  /** A record packs exactly if each of its values can be written. */
  lemma {:induction false} PacksIfWritable(big: bool, fields: seq<Field>, attrs: Attributes)
    ensures PackAll(big, fields, attrs).Success? <==>
      forall i | 0 <= i < |fields| :: Writable(fields[i].fmt, Get(attrs, fields[i].name))
  {
    if fields != [] {
      var last := |fields| - 1;
      PacksIfWritable(big, fields[..last], attrs);
      PackIfWritable(big, fields[last].fmt, Get(attrs, fields[last].name));
      hide PackValue, Writable;
    }
  }

  /** And then every field's bytes are written after those of the fields before it. */
  lemma {:induction false} PackedBytes(big: bool, fields: seq<Field>, attrs: Attributes, i: nat)
    requires PackAll(big, fields, attrs).Success? && i < |fields|
    ensures
      var packed, at := PackAll(big, fields, attrs).value, Size(fields[..i]);
      && |packed| == Size(fields) && at + SizeOf(fields[i].fmt) <= |packed|
      && Writes(big, fields[i].fmt, Get(attrs, fields[i].name), packed[at..at + SizeOf(fields[i].fmt)])
  {
    hide Writes, PackValue;
    var last := |fields| - 1;
    var front, f := fields[..last], fields[last];
    PackedSize(big, fields, attrs);
    PackedSize(big, front, attrs);
    var packed, before := PackAll(big, fields, attrs).value, PackAll(big, front, attrs).value;
    if i < last {
      PackedBytes(big, front, attrs, i);
      SizeOfFront(front, i);
      assert front[..i] == fields[..i];
      hide PackAll, Size, SizeOf;
      var at, n := Size(fields[..i]), SizeOf(fields[i].fmt);
      assert packed[at..at + n] == before[at..at + n];
    } else {
      PackWrites(big, f.fmt, Get(attrs, f.name));
      assert packed[|before|..|packed|] == PackValue(big, f.fmt, Get(attrs, f.name)).value;
    }
  }

  /** What comes back for a value: a number marked `<` with its bytes reversed, a
      character as a byte string. */
  function Back(fmt: Format, v: Value): Value {
    if !Fits(fmt, v) then v
    else if fmt.Int? && fmt.mark == Little then Number(FromLE(ToBE(v.n, fmt.width)))
    else if fmt.Char? then Octets([v.n])
    else v
  }

  predicate AllFit(fields: seq<Field>, attrs: Attributes) {
    forall i | 0 <= i < |fields| :: Fits(fields[i].fmt, Get(attrs, fields[i].name))
  }

  predicate NamesDiffer(fields: seq<Field>) {
    forall i, j | 0 <= i < j < |fields| :: fields[i].name != fields[j].name
  }

  /** No value follows padding. */
  predicate PaddingLast(fields: seq<Field>) {
    forall i, j | 0 <= i < j < |fields| :: fields[i].fmt.Padding? ==> fields[j].fmt.Padding?
  }

  /** Every value field of the record `r` reads as `want` says for the value packed. */
  predicate ReadsAs(fields: seq<Field>, attrs: Attributes, r: Result<Attributes>, want: (Format, Value) -> Value) {
    && r.Success?
    && forall i | 0 <= i < |fields| && !fields[i].fmt.Padding? ::
      Get(r.value, fields[i].name) == want(fields[i].fmt, Get(attrs, fields[i].name))
  }

  /** What unpacking into `other` makes of the packed `attrs`. */
  function Unpacked(big: bool, fields: seq<Field>, attrs: Attributes, other: Attributes): Result<Attributes> {
    match PackAll(big, fields, attrs)
    case Raised => Raised
    case Success(buf) => UnpackAll(big, fields, buf, other)
  }

  lemma PackUnpackValue(big: bool, fmt: Format, v: Value)
    requires Fits(fmt, v)
    ensures PackValue(big, fmt, v).Success? && |PackValue(big, fmt, v).value| == SizeOf(fmt)
    ensures !fmt.Padding? ==> Swap(fmt, UnpackValue(big, fmt, PackValue(big, fmt, v).value)) == Success(Back(fmt, v))
  {
    hide ToBE, ToLE, FromBE, FromLE, Pow256;
    match fmt {
      case Int(w, _) =>
        FromToBE(v.n, w);
        FromToLE(v.n, w);
      case Raw(n) => assert (v.b + seq(n, i => 0))[..n] == v.b;
      case _ =>
    }
  }

  /** The values of `fields` before the padding, in order. */
  function Carried(fields: seq<Field>): nat {
    if fields == [] || !fields[|fields| - 1].fmt.Padding? then |fields| else Carried(fields[..|fields| - 1])
  }

  /** The packed record splits back into its values. */
  lemma {:induction false} ValuesOfPacked(big: bool, fields: seq<Field>, attrs: Attributes)
    requires AllFit(fields, attrs) && NamesDiffer(fields) && PaddingLast(fields)
    ensures PackAll(big, fields, attrs).Success? && |PackAll(big, fields, attrs).value| == Size(fields)
    ensures Carried(fields) <= |fields|
    ensures forall i | 0 <= i < |fields| :: fields[i].fmt.Padding? <==> i >= Carried(fields)
    ensures
      var vs := Values(big, fields, PackAll(big, fields, attrs).value);
      && |vs| == Carried(fields)
      && forall i | 0 <= i < |vs| ::
        Swap(fields[i].fmt, vs[i]) == Success(Back(fields[i].fmt, Get(attrs, fields[i].name)))
  {
    hide PackValue, UnpackValue, Swap, Back, Fits, SizeOf;
    if fields != [] {
      var front, f := fields[..|fields| - 1], fields[|fields| - 1];
      ValuesOfPacked(big, front, attrs);
      PackUnpackValue(big, f.fmt, Get(attrs, f.name));
      var a, b := PackAll(big, front, attrs).value, PackValue(big, f.fmt, Get(attrs, f.name)).value;
      assert (a + b)[..|a|] == a && (a + b)[|a|..] == b;
    }
  }

  lemma {:induction false} AssignedByName(fields: seq<Field>, values: seq<Value>)
    requires NamesDiffer(fields) && |values| <= |fields|
    requires forall i | 0 <= i < |values| :: Swap(fields[i].fmt, values[i]).Success?
    ensures Assign(fields, values).Success?
    ensures forall i | 0 <= i < |values| ::
      fields[i].name in Assign(fields, values).value
        && Assign(fields, values).value[fields[i].name] == Swap(fields[i].fmt, values[i]).value
  {
    hide Swap;
    if values != [] {
      AssignedByName(fields, values[..|values| - 1]);
    }
  }

  lemma RestoredIfPaddingLast(big: bool, fields: seq<Field>, attrs: Attributes, other: Attributes)
    requires AllFit(fields, attrs) && NamesDiffer(fields) && PaddingLast(fields)
    ensures ReadsAs(fields, attrs, Unpacked(big, fields, attrs, other), Back)
  {
    hide PackAll, Values, Swap, Back, Size;
    ValuesOfPacked(big, fields, attrs);
    AssignedByName(fields, Values(big, fields, PackAll(big, fields, attrs).value));
    hide NamesDiffer, PaddingLast, AllFit, Fits, Assign, Carried;
  }

  function CountValues(fields: seq<Field>): (n: nat)
    ensures n <= |fields|
  {
    if fields == [] then 0
    else CountValues(fields[..|fields| - 1]) + if fields[|fields| - 1].fmt.Padding? then 0 else 1
  }

  lemma {:induction false} CountOfValues(big: bool, fields: seq<Field>, buf: seq<byte>)
    requires |buf| == Size(fields)
    ensures |Values(big, fields, buf)| == CountValues(fields)
  {
    hide UnpackValue;
    if fields != [] {
      CountOfValues(big, fields[..|fields| - 1], buf[..Size(fields[..|fields| - 1])]);
    }
  }

  lemma {:induction false} PaddingIsNotCounted(fields: seq<Field>, p: nat)
    requires p < |fields| && fields[p].fmt.Padding?
    ensures CountValues(fields) < |fields|
  {
    if p < |fields| - 1 {
      PaddingIsNotCounted(fields[..|fields| - 1], p);
    }
  }

  /** A value after padding: the last value's field is beyond all that get one. */
  lemma {:induction false} ValueBeyondCount(fields: seq<Field>) returns (k: nat)
    requires !PaddingLast(fields)
    ensures k < |fields| && !fields[k].fmt.Padding? && CountValues(fields) <= k
  {
    var last := |fields| - 1;
    var i, j :| 0 <= i < j < |fields| && fields[i].fmt.Padding? && !fields[j].fmt.Padding?;
    if fields[last].fmt.Padding? {
      assert fields[..last][i].fmt.Padding? && !fields[..last][j].fmt.Padding?;
      k := ValueBeyondCount(fields[..last]);
    } else {
      PaddingIsNotCounted(fields[..last], i);
      k := last;
    }
  }

  lemma {:induction false} UnassignedName(fields: seq<Field>, values: seq<Value>, k: nat)
    requires NamesDiffer(fields) && |values| <= k < |fields| && Assign(fields, values).Success?
    ensures fields[k].name !in Assign(fields, values).value
  {
    hide Swap;
    if values != [] {
      UnassignedName(fields, values[..|values| - 1], k);
    }
  }

  lemma KeepsOther(big: bool, fields: seq<Field>, attrs: Attributes, other: Attributes, k: nat)
    requires NamesDiffer(fields) && CountValues(fields) <= k < |fields|
    requires Unpacked(big, fields, attrs, other).Success?
    ensures Get(Unpacked(big, fields, attrs, other).value, fields[k].name) == Get(other, fields[k].name)
  {
    hide PackAll, Values, Size, CountValues, NamesDiffer, Assign;
    var buf := PackAll(big, fields, attrs).value;
    CountOfValues(big, fields, buf);
    UnassignedName(fields, Values(big, fields, buf), k);
  }

  /** With a value after padding, there is a value field that unpacking never sets: in
      every record it is unpacked into, it keeps what that held. */
  lemma ValueAfterPaddingIsLost(big: bool, fields: seq<Field>, attrs: Attributes) returns (k: nat)
    requires NamesDiffer(fields) && !PaddingLast(fields)
    ensures k < |fields| && !fields[k].fmt.Padding?
    ensures forall other: Attributes | Unpacked(big, fields, attrs, other).Success? ::
      Get(Unpacked(big, fields, attrs, other).value, fields[k].name) == Get(other, fields[k].name)
  {
    hide Unpacked, CountValues, NamesDiffer, Get;
    k := ValueBeyondCount(fields);
    hide PaddingLast;
    forall other: Attributes | Unpacked(big, fields, attrs, other).Success?
      ensures Get(Unpacked(big, fields, attrs, other).value, fields[k].name) == Get(other, fields[k].name)
    {
      KeepsOther(big, fields, attrs, other, k);
    }
  }

  /** So it is not restored into every record, whatever it should read as. */
  lemma NotRestoredAfterPadding(big: bool, fields: seq<Field>, attrs: Attributes, want: (Format, Value) -> Value)
    requires NamesDiffer(fields) && !PaddingLast(fields)
    ensures exists other: Attributes :: !ReadsAs(fields, attrs, Unpacked(big, fields, attrs, other), want)
  {
    hide Unpacked, NamesDiffer, PaddingLast;
    var k := ValueAfterPaddingIsLost(big, fields, attrs);
    var w := want(fields[k].fmt, Get(attrs, fields[k].name));
    var other := map[fields[k].name := if w.Number? then Octets([]) else Number(0)];
    if ReadsAs(fields, attrs, Unpacked(big, fields, attrs, other), want) {
      assert false;
    }
  }

  /** For different names and values that fit: whatever record the packed bytes are
      unpacked into, every value field reads back, if and only if no value follows padding;
      what it reads back as is Back of the value. */
  lemma UnpackAfterPack(big: bool, fields: seq<Field>, attrs: Attributes)
    requires AllFit(fields, attrs) && NamesDiffer(fields)
    ensures (forall other: Attributes :: ReadsAs(fields, attrs, Unpacked(big, fields, attrs, other), Back)) <==>
      PaddingLast(fields)
  {
    hide AllFit, NamesDiffer, PaddingLast, Unpacked, ReadsAs, Back;
    if PaddingLast(fields) {
      forall other: Attributes
        ensures ReadsAs(fields, attrs, Unpacked(big, fields, attrs, other), Back)
      {
        RestoredIfPaddingLast(big, fields, attrs, other);
      }
    } else {
      NotRestoredAfterPadding(big, fields, attrs, Back);
    }
  }

  function Mirrored(b: seq<byte>): (m: seq<byte>)
    ensures |m| == |b|
  {
    if b == [] then [] else Mirrored(b[1..]) + [b[0]]
  }

  lemma {:induction false} LittleIsMirrored(b: seq<byte>)
    ensures FromLE(b) == FromBE(Mirrored(b))
  {
    if b != [] {
      LittleIsMirrored(b[1..]);
      assert Mirrored(b)[..|b| - 1] == Mirrored(b[1..]);
    }
  }

  /** A value is its own Back exactly if it is no character, and, when marked `<`, its
      bytes read the same from both ends. */
  predicate Survives(fmt: Format, v: Value)
    requires Fits(fmt, v)
  {
    !fmt.Char? && (fmt.Int? && fmt.mark == Little ==> Mirrored(ToBE(v.n, fmt.width)) == ToBE(v.n, fmt.width))
  }

  lemma BackExactly(fmt: Format, v: Value)
    requires Fits(fmt, v)
    ensures Back(fmt, v) == v <==> Survives(fmt, v)
  {
    hide FromBE, FromLE, ToBE, Mirrored, Pow256;
    if fmt.Int? {
      var b := ToBE(v.n, fmt.width);
      FromToBE(v.n, fmt.width);
      LittleIsMirrored(b);
      ToFromBE(Mirrored(b));
      ToFromBE(b);
    }
  }

  /** Put together: packing and unpacking gives every attribute back as it was, into every
      record, if and only if no value follows padding and every value survives. */
  lemma RestoredExactly(big: bool, fields: seq<Field>, attrs: Attributes)
    requires AllFit(fields, attrs) && NamesDiffer(fields)
    ensures (forall other: Attributes :: ReadsAs(fields, attrs, Unpacked(big, fields, attrs, other), (fmt, v) => v))
      <==> PaddingLast(fields)
           && forall i | 0 <= i < |fields| && !fields[i].fmt.Padding? ::
             Survives(fields[i].fmt, Get(attrs, fields[i].name))
  {
    hide NamesDiffer, PaddingLast, Unpacked, Back, Survives, Fits;
    var same: (Format, Value) -> Value := (fmt, v) => v;
    if PaddingLast(fields) {
      forall i | 0 <= i < |fields|
        ensures Back(fields[i].fmt, Get(attrs, fields[i].name)) == Get(attrs, fields[i].name)
           <==> Survives(fields[i].fmt, Get(attrs, fields[i].name))
      {
        BackExactly(fields[i].fmt, Get(attrs, fields[i].name));
      }
      forall other: Attributes
        ensures ReadsAs(fields, attrs, Unpacked(big, fields, attrs, other), Back)
      {
        RestoredIfPaddingLast(big, fields, attrs, other);
      }
      assert ReadsAs(fields, attrs, Unpacked(big, fields, attrs, map[]), Back);
    } else {
      NotRestoredAfterPadding(big, fields, attrs, same);
    }
  }

  lemma PackPadded(big: bool, pad: nat, f: Field, attrs: Attributes)
    requires PackValue(big, f.fmt, Get(attrs, f.name)).Success?
    ensures
      PackAll(big, [Field("padding", Padding(pad)), f], attrs)
        == Success(seq(pad, i => 0) + PackValue(big, f.fmt, Get(attrs, f.name)).value)
  {
    hide Get;
    var pads, zeros := [Field("padding", Padding(pad))], seq(pad, i => 0);
    assert pads[..0] == [] && [] + zeros == zeros;
    assert PackAll(big, pads, attrs) == Success(zeros) by { hide Pow256, ToBE, ToLE; }
    hide PackValue;
    assert (pads + [f])[..1] == pads && [Field("padding", Padding(pad)), f] == pads + [f];
  }

  lemma ValuesPadded(big: bool, pad: nat, f: Field, b: seq<byte>)
    requires !f.fmt.Padding? && |b| == SizeOf(f.fmt)
    ensures
      var fields := [Field("padding", Padding(pad)), f];
      && Size(fields) == pad + |b|
      && Values(big, fields, seq(pad, i => 0) + b) == [UnpackValue(big, f.fmt, b)]
  {
    hide UnpackValue;
    var pads, zeros := [Field("padding", Padding(pad))], seq(pad, i => 0);
    var fields := [Field("padding", Padding(pad)), f];
    assert fields[..1] == pads && pads[..0] == [] && Size(pads) == pad;
    assert (zeros + b)[..pad] == zeros && (zeros + b)[pad..] == b;
    assert Values(big, pads, zeros) == [];
  }

  lemma UnpackPadded(big: bool, pad: nat, f: Field, b: seq<byte>, other: Attributes)
    requires !f.fmt.Padding? && |b| == SizeOf(f.fmt)
    ensures
      UnpackAll(big, [Field("padding", Padding(pad)), f], seq(pad, i => 0) + b, other)
        == Success(other["padding" := UnpackValue(big, f.fmt, b)])
  {
    hide UnpackValue, Values, Size, SizeOf;
    ValuesPadded(big, pad, f, b);
    var fields, v := [Field("padding", Padding(pad)), f], UnpackValue(big, f.fmt, b);
    assert [v][..0] == [];
    assert Assign(fields, [v]) == Success(map["padding" := v]);
    assert other + map["padding" := v] == other["padding" := v];
  }

  /** A value after padding comes back under the padding's name, and its own attribute
      keeps whatever the record had. */
  lemma PaddingShiftsNames(big: bool, pad: nat, width: nat, n: nat, attrs: Attributes, other: Attributes)
    requires n < Pow256(width) && Get(attrs, "value") == Number(n)
    ensures
      var fields := [Field("padding", Padding(pad)), Field("value", Int(width, Plain))];
      var packed := PackAll(big, fields, attrs);
      packed.Success? && UnpackAll(big, fields, packed.value, other) == Success(other["padding" := Number(n)])
  {
    hide PackAll, UnpackAll, PackValue, UnpackValue, Pow256;
    var f := Field("value", Int(width, Plain));
    PackUnpackValue(big, f.fmt, Number(n));
    PackPadded(big, pad, f, attrs);
    UnpackPadded(big, pad, f, PackValue(big, f.fmt, Number(n)).value, other);
  }

  /** One field that does not pack makes the whole record raise. */
  lemma {:induction false} RefusedField(big: bool, fields: seq<Field>, attrs: Attributes, i: nat)
    requires i < |fields| && PackValue(big, fields[i].fmt, Get(attrs, fields[i].name)).Raised?
    ensures PackAll(big, fields, attrs).Raised?
  {
    hide PackValue, Get;
    if i < |fields| - 1 {
      RefusedField(big, fields[..|fields| - 1], attrs, i);
    }
  }

  // ---- The two CTAPHID packets ----

  function InitFields(size: nat): seq<Field> {
    [Field("cid", Int(4, Plain)), Field("cmd", Int(1, Plain)), Field("bcnt", Int(2, Plain)), Field("data", Raw(size))]
  }

  function SeqFields(size: nat): seq<Field> {
    [Field("cid", Int(4, Plain)), Field("seq", Int(1, Plain)), Field("data", Raw(size))]
  }

  lemma PackOneMore(big: bool, fields: seq<Field>, f: Field, attrs: Attributes)
    ensures PackAll(big, fields + [f], attrs)
         == Append(PackAll(big, fields, attrs), PackValue(big, f.fmt, Get(attrs, f.name)))
  {
    assert (fields + [f])[..|fields|] == fields;
  }

  lemma PackByte(v: nat)
    ensures PackNumber(true, v, 1) == if v < 256 then Success([v]) else Raised
  {
    assert Pow256(1) == 256;
    if v < 256 {
      assert ToBE(v, 1) == ToBE(v / 256, 0) + [v % 256] == [v];
    }
  }

  lemma PackShort(v: nat)
    ensures PackNumber(true, v, 2) == if v < 0x10000 then Success([v / 256, v % 256]) else Raised
  {
    assert Pow256(1) == 256 && Pow256(2) == 0x10000;
    if v < 0x10000 {
      PackByte(v / 256);
      assert ToBE(v, 2) == ToBE(v / 256, 1) + [v % 256] == [v / 256, v % 256];
    }
  }

  /** The frames PasskeyDevice sends are these packets, padded to 64 bytes. */
  lemma InitFrameIsPacked(cid: PasskeyDevice.Cid, cmd: byte, bcnt: nat, data: seq<byte>, attrs: Attributes)
    requires Get(attrs, "cid") == Number(FromBE(cid)) && Get(attrs, "cmd") == Number(cmd)
    requires Get(attrs, "bcnt") == Number(bcnt) && Get(attrs, "data") == Octets(data)
    ensures
      var packed := PackAll(true, InitFields(|data|), attrs);
      if bcnt >= 0x10000 then packed.Raised?
      else packed.Success? && |packed.value| == 7 + |data| && (|data| <= CborCommands.INIT_DATA ==>
             PasskeyDevice.InitFrame(cid, cmd, bcnt, data) == PasskeyDevice.Pad(packed.value))
  {
    hide PackAll, PackNumber, Get;
    ToFromBE(cid);
    PackByte(cmd);
    PackShort(bcnt);
    assert PackNumber(true, FromBE(cid), 4) == Success(cid) by { hide *; NumberOfBytes(cid); }
    var f := InitFields(|data|);
    PackNone(true, attrs);
    PackOneMore(true, [], f[0], attrs);
    PackOneMore(true, [f[0]], f[1], attrs);
    PackOneMore(true, [f[0], f[1]], f[2], attrs);
    PackOneMore(true, [f[0], f[1], f[2]], f[3], attrs);
    assert [] + [f[0]] == [f[0]] && [f[0]] + [f[1]] == [f[0], f[1]];
    assert [f[0], f[1]] + [f[2]] == [f[0], f[1], f[2]] && [f[0], f[1], f[2]] + [f[3]] == f;
    assert (data + seq(|data|, i => 0))[..|data|] == data;
    assert [] + cid == cid;
  }

  lemma NumberOfBytes(b: seq<byte>)
    ensures PackNumber(true, FromBE(b), |b|) == Success(b)
  {
    ToFromBE(b);
  }

  lemma PackNone(big: bool, attrs: Attributes)
    ensures PackAll(big, [], attrs) == Success([])
  {
  }

  lemma ContFrameIsPacked(cid: PasskeyDevice.Cid, seqNum: nat, data: seq<byte>, attrs: Attributes)
    requires Get(attrs, "cid") == Number(FromBE(cid)) && Get(attrs, "seq") == Number(seqNum)
      && Get(attrs, "data") == Octets(data)
    ensures
      var packed := PackAll(true, SeqFields(|data|), attrs);
      if seqNum >= 256 then packed.Raised?
      else packed.Success? && |packed.value| == 5 + |data| && (|data| <= CborCommands.CONT_DATA ==>
             PasskeyDevice.ContFrame(cid, seqNum, data) == PasskeyDevice.Pad(packed.value))
  {
    hide PackAll, PackNumber, Get;
    PackByte(seqNum);
    assert PackNumber(true, FromBE(cid), 4) == Success(cid) by { hide *; NumberOfBytes(cid); }
    var f := SeqFields(|data|);
    PackNone(true, attrs);
    PackOneMore(true, [], f[0], attrs);
    PackOneMore(true, [f[0]], f[1], attrs);
    PackOneMore(true, [f[0], f[1]], f[2], attrs);
    assert [] + [f[0]] == [f[0]] && [f[0]] + [f[1]] == [f[0], f[1]] && [f[0], f[1]] + [f[2]] == f;
    assert (data + seq(|data|, i => 0))[..|data|] == data;
    assert [] + cid == cid;
  }
}
