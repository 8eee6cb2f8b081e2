/** The SOS wire format: tagged values, possibly nested (sos-rs/src/lib.rs). */
module Sos {
  import opened Wrappers
  import opened LittleEndian

  /** Floats are kept as their bit patterns, strings as their UTF-8 bytes. */
  datatype Value =
    | Int32(i: int)
    | UInt32(u: nat)
    | Int64(i: int)
    | UInt64(u: nat)
    | Float(bits: nat)
    | Double(bits: nat)
    | Error(text: seq<Byte>)
    | String(text: seq<Byte>)
    | Opaque(bytes: seq<Byte>)
    | Function(mod: seq<Byte>, name: seq<Byte>)
    | Embedded(values: seq<Value>)

  datatype CType =
    | TInvalid | TInt32 | TUInt32 | TInt64 | TUInt64 | TFloat | TDouble
    | TError | TString | TOpaque | TFunction | TEmbedded

  function ToTag(t: CType): Byte {
    match t
    case TInvalid => 0 case TInt32 => 1 case TUInt32 => 2 case TInt64 => 3 case TUInt64 => 4
    case TFloat => 5 case TDouble => 6 case TError => 7 case TString => 8 case TOpaque => 9
    case TFunction => 10 case TEmbedded => 11
  }

  function FromTag(b: Byte): Option<CType> {
    match b
    case 0 => Some(TInvalid) case 1 => Some(TInt32) case 2 => Some(TUInt32) case 3 => Some(TInt64)
    case 4 => Some(TUInt64) case 5 => Some(TFloat) case 6 => Some(TDouble) case 7 => Some(TError)
    case 8 => Some(TString) case 9 => Some(TOpaque) case 10 => Some(TFunction) case 11 => Some(TEmbedded)
    case _ => None
  }

  function TypeOf(v: Value): CType {
    match v
    case Int32(_) => TInt32 case UInt32(_) => TUInt32 case Int64(_) => TInt64 case UInt64(_) => TUInt64
    case Float(_) => TFloat case Double(_) => TDouble case Error(_) => TError case String(_) => TString
    case Opaque(_) => TOpaque case Function(_, _) => TFunction case Embedded(_) => TEmbedded
  }

  /** The width of a type whose values carry no length field. */
  function Width(t: CType): Option<nat> {
    match t
    case TInt32 => Some(4) case TUInt32 => Some(4) case TFloat => Some(4)
    case TInt64 => Some(8) case TUInt64 => Some(8) case TDouble => Some(8)
    case _ => None
  }

  // ----- sizes -----

  function EncodedSize(v: Value): nat
    decreases v
  {
    match v
    case Int32(_) => 4 case UInt32(_) => 4 case Float(_) => 4
    case Int64(_) => 8 case UInt64(_) => 8 case Double(_) => 8
    case String(s) => |s| + 1 + 4
    case Error(s) => |s| + 1 + 4
    case Opaque(b) => |b| + 4
    case Function(m, n) => |m| + |n| + 2 + 4
    case Embedded(vs) => EncodedLen(vs) + 4
  }

  function SizeSum(vs: seq<Value>): nat
    decreases vs, 0
  {
    if vs == [] then 0 else EncodedSize(vs[0]) + SizeSum(vs[1..])
  }

  function EncodedLen(vs: seq<Value>): nat
    decreases vs, 1
  {
    |vs| + 8 + SizeSum(vs)
  }

  // ----- the format -----

  function Unsigned(i: int, n: nat): nat
    requires 0 <= i + Base(n)
  {
    if i < 0 then i + Base(n) else i
  }

  function Signed(u: nat, n: nat): int { if 2 * u >= Base(n) then u - Base(n) else u }

  /** What Rust's types already promise about a value. */
  predicate WellTyped(v: Value)
    decreases v
  {
    match v
    case Int32(i) => -0x8000_0000 <= i < 0x8000_0000
    case UInt32(u) => u < 0x1_0000_0000
    case Int64(i) => -0x8000_0000_0000_0000 <= i < 0x8000_0000_0000_0000
    case UInt64(u) => u < 0x1_0000_0000_0000_0000
    case Float(b) => b < 0x1_0000_0000
    case Double(b) => b < 0x1_0000_0000_0000_0000
    case Error(s) => ValidUtf8(s)
    case String(s) => ValidUtf8(s)
    case Opaque(_) => true
    case Function(m, n) => ValidUtf8(m) && ValidUtf8(n)
    case Embedded(vs) => AllWellTyped(vs)
  }

  predicate AllWellTyped(vs: seq<Value>)
    decreases vs, 0
  {
    forall k :: 0 <= k < |vs| ==> WellTyped(vs[k])
  }

  function Body(v: Value): seq<Byte>
    requires WellTyped(v)
    decreases v, 0
  {
    Widths();
    match v
    case Int32(i) => Le(Unsigned(i, 4), 4)
    case UInt32(u) => Le(u, 4)
    case Int64(i) => Le(Unsigned(i, 8), 8)
    case UInt64(u) => Le(u, 8)
    case Float(b) => Le(b, 4)
    case Double(b) => Le(b, 8)
    case Error(s) => s + [0]
    case String(s) => s + [0]
    case Opaque(b) => b
    case Function(m, n) => m + [0] + n + [0]
    case Embedded(vs) => Encode(vs)
  }

  function EncodeValue(v: Value): seq<Byte>
    requires WellTyped(v)
    decreases v, 1
  {
    [ToTag(TypeOf(v))] + (if Width(TypeOf(v)).Some? then [] else Le(|Body(v)|, 4)) + Body(v)
  }

  function EncodeAll(vs: seq<Value>): seq<Byte>
    requires AllWellTyped(vs)
    decreases vs, 0
  {
    if vs == [] then [] else EncodeValue(vs[0]) + EncodeAll(vs[1..])
  }

  function Encode(vs: seq<Value>): seq<Byte>
    requires AllWellTyped(vs)
    decreases vs, 1
  {
    Le(|vs|, 4) + Le(EncodedLen(vs), 4) + EncodeAll(vs)
  }

  lemma {:induction false} BodySize(v: Value)
    requires WellTyped(v)
    ensures |Body(v)| + (if Width(TypeOf(v)).Some? then 0 else 4) == EncodedSize(v)
    ensures Width(TypeOf(v)).Some? ==> |Body(v)| == Width(TypeOf(v)).value
    ensures |EncodeValue(v)| == 1 + EncodedSize(v) && EncodedSize(v) >= 4
    decreases v
  {
    if v.Embedded? {
      EncodedExactly(v.values);
    }
  }

  /** An encoding has exactly the announced length. */
  lemma {:induction false} EncodedExactly(vs: seq<Value>)
    requires AllWellTyped(vs)
    ensures |Encode(vs)| == EncodedLen(vs) && |EncodeAll(vs)| == |vs| + SizeSum(vs)
    decreases vs
  {
    if vs != [] {
      BodySize(vs[0]);
      EncodedExactly(vs[1..]);
    }
  }

  // ----- the bytes -----

  /** The encoding of each kind of value, byte by byte. */
  lemma NumberBytes(v: Value)
    requires WellTyped(v)
    ensures match v
            case Int32(i) => EncodeValue(v) == [1] + Le(if i < 0 then i + 0x1_0000_0000 else i, 4)
            case UInt32(u) => EncodeValue(v) == [2] + Le(u, 4)
            case Int64(i) => EncodeValue(v) == [3] + Le(if i < 0 then i + 0x1_0000_0000_0000_0000 else i, 8)
            case UInt64(u) => EncodeValue(v) == [4] + Le(u, 8)
            case Float(b) => EncodeValue(v) == [5] + Le(b, 4)
            case Double(b) => EncodeValue(v) == [6] + Le(b, 8)
            case _ => true
  {
    hide Le, Base;
    Widths();
  }

  lemma TextBytes(v: Value)
    requires WellTyped(v)
    ensures match v
            case Error(s) => EncodeValue(v) == [7] + Le(|s| + 1, 4) + s + [0]
            case String(s) => EncodeValue(v) == [8] + Le(|s| + 1, 4) + s + [0]
            case Opaque(b) => EncodeValue(v) == [9] + Le(|b|, 4) + b
            case Function(m, n) => EncodeValue(v) == [10] + Le(|m| + |n| + 2, 4) + m + [0] + n + [0]
            case Embedded(vs) => EncodeValue(v) == [11] + Le(|Encode(vs)|, 4) + Encode(vs)
            case _ => true
  {
    hide Le, Base, Encode;
  }

  /** An encoding is the number of values, its own length, and the values one after another. */
  lemma EncodingBytes(vs: seq<Value>)
    requires AllWellTyped(vs)
    ensures Encode(vs) == Le(|vs|, 4) + Le(|Encode(vs)|, 4) + EncodeAll(vs)
    ensures vs != [] ==> EncodeAll(vs) == EncodeValue(vs[0]) + EncodeAll(vs[1..])
  {
    EncodedExactly(vs);
  }

  /** One string of one letter. */
  lemma OneLetter()
    ensures Encode([String([97])]) == [1, 0, 0, 0, 15, 0, 0, 0, 8, 2, 0, 0, 0, 97, 0]
  {
    hide Le, Body, EncodeValue;
    var v := String([97]);
    assert ValidUtf8([97]);
    SmallNumber(1);
    SmallNumber(2);
    SmallNumber(15);
    TextBytes(v);
    assert EncodedLen([v]) == 15 by { assert SizeSum([v]) == EncodedSize(v) + SizeSum([]); }
    assert EncodeAll([v]) == EncodeValue(v) by { assert [v][1..] == []; }
  }

  lemma SmallNumber(x: Byte)
    ensures Le(x, 4) == [x, 0, 0, 0]
  {
    assert Le(0, 3) == [0, 0, 0];
    assert x % 256 == x && x / 256 == 0;
  }

  // ----- UTF-8 -----

  predicate Tail(b: Byte) { 0x80 <= b < 0xC0 }

  /** Length of the well-formed UTF-8 sequence at the start of `s`, or 0. */
  function SequenceLength(s: seq<Byte>): (n: nat)
    ensures n <= |s|
  {
    if s == [] then 0
    else if s[0] < 0x80 then 1
    else if 0xC2 <= s[0] < 0xE0 then if |s| >= 2 && Tail(s[1]) then 2 else 0
    else if 0xE0 <= s[0] < 0xF0 then
      if |s| >= 3 && Tail(s[1]) && Tail(s[2]) && (s[0] == 0xE0 ==> s[1] >= 0xA0) && (s[0] == 0xED ==> s[1] < 0xA0)
      then 3 else 0
    else if 0xF0 <= s[0] < 0xF5 then
      if |s| >= 4 && Tail(s[1]) && Tail(s[2]) && Tail(s[3])
        && (s[0] == 0xF0 ==> s[1] >= 0x90) && (s[0] == 0xF4 ==> s[1] < 0x90)
      then 4 else 0
    else 0
  }

  predicate ValidUtf8(s: seq<Byte>)
    decreases |s|
  {
    s == [] || (SequenceLength(s) > 0 && ValidUtf8(s[SequenceLength(s)..]))
  }

  /** The numbers that UTF-8 encodes: all code points but the surrogates. */
  predicate Scalar(c: nat) { c < 0xD800 || 0xE000 <= c < 0x11_0000 }

  function Utf8(c: nat): seq<Byte>
    requires Scalar(c)
  {
    if c < 0x80 then [c]
    else if c < 0x800 then [0xC0 + c / 64, 0x80 + c % 64]
    else if c < 0x1_0000 then [0xE0 + c / 4096, 0x80 + c / 64 % 64, 0x80 + c % 64]
    else [0xF0 + c / 0x4_0000, 0x80 + c / 4096 % 64, 0x80 + c / 64 % 64, 0x80 + c % 64]
  }

  predicate Scalars(cs: seq<nat>) { forall k :: 0 <= k < |cs| ==> Scalar(cs[k]) }

  function Utf8All(cs: seq<nat>): seq<Byte>
    requires Scalars(cs)
  {
    if cs == [] then [] else Utf8(cs[0]) + Utf8All(cs[1..])
  }

  lemma SequenceOfScalar(c: nat, rest: seq<Byte>)
    requires Scalar(c)
    ensures SequenceLength(Utf8(c) + rest) == |Utf8(c)| > 0
  {
  }

  /** A number by its digits in base 64. */
  lemma Base64(a: nat, x: nat, y: nat, z: nat)
    requires x < 64 && y < 64 && z < 64
    ensures var c := ((a * 64 + x) * 64 + y) * 64 + z;
            c % 64 == z && c / 64 % 64 == y && c / 4096 % 64 == x && c / 0x4_0000 == a && c / 4096 == a * 64 + x
  {
  }

  lemma ScalarOfSequence(s: seq<Byte>) returns (c: nat)
    requires SequenceLength(s) > 0
    ensures Scalar(c) && Utf8(c) == s[..SequenceLength(s)]
  {
    var n := SequenceLength(s);
    if n == 1 {
      c := s[0];
      assert s[..1] == [s[0]];
    } else if n == 2 {
      var a: int, y: int := s[0], s[1];
      Base64(0, 0, a - 0xC0, y - 0x80);
      c := (a - 0xC0) * 64 + (y - 0x80);
      assert s[..2] == [s[0], s[1]];
    } else if n == 3 {
      c := ThreeBytes(s);
    } else {
      c := FourBytes(s);
    }
  }

  lemma ThreeBytes(s: seq<Byte>) returns (c: nat)
    requires SequenceLength(s) == 3
    ensures Scalar(c) && Utf8(c) == s[..3]
  {
    var a: int, x: int, y: int := s[0], s[1], s[2];
    Base64(0, a - 0xE0, x - 0x80, y - 0x80);
    c := ((a - 0xE0) * 64 + (x - 0x80)) * 64 + (y - 0x80);
    assert s[..3] == [s[0], s[1], s[2]];
  }

  lemma FourBytes(s: seq<Byte>) returns (c: nat)
    requires SequenceLength(s) == 4
    ensures Scalar(c) && Utf8(c) == s[..4]
  {
    var a: int, x: int, y: int, z: int := s[0], s[1], s[2], s[3];
    Base64(a - 0xF0, x - 0x80, y - 0x80, z - 0x80);
    c := (((a - 0xF0) * 64 + (x - 0x80)) * 64 + (y - 0x80)) * 64 + (z - 0x80);
    assert s[..4] == [s[0], s[1], s[2], s[3]];
  }

  /** The byte strings accepted as text are exactly the UTF-8 encodings. */
  lemma TextIsUtf8(s: seq<Byte>)
    ensures ValidUtf8(s) <==> exists cs :: Scalars(cs) && Utf8All(cs) == s
  {
    if ValidUtf8(s) {
      var cs := ScalarsOf(s);
    }
    if cs :| Scalars(cs) && Utf8All(cs) == s {
      EncodedIsText(cs);
    }
  }

  lemma {:induction false} ScalarsOf(s: seq<Byte>) returns (cs: seq<nat>)
    requires ValidUtf8(s)
    ensures Scalars(cs) && Utf8All(cs) == s
    decreases |s|
  {
    hide Utf8, SequenceLength;
    cs := [];
    if s != [] {
      var n := SequenceLength(s);
      var c := ScalarOfSequence(s);
      var rest := ScalarsOf(s[n..]);
      cs := [c] + rest;
      assert cs[1..] == rest && s == s[..n] + s[n..];
    }
  }

  lemma {:induction false} EncodedIsText(cs: seq<nat>)
    requires Scalars(cs)
    ensures ValidUtf8(Utf8All(cs))
  {
    hide Utf8, SequenceLength;
    if cs != [] {
      EncodedIsText(cs[1..]);
      SequenceOfScalar(cs[0], Utf8All(cs[1..]));
      assert (Utf8(cs[0]) + Utf8All(cs[1..]))[|Utf8(cs[0])|..] == Utf8All(cs[1..]);
    }
  }

  // ----- decoding -----

  datatype Iter = Iter(count: nat, buff: seq<Byte>)

  /** A decoded value; a nested list is an iterator until somebody walks it. */
  datatype Item = Plain(v: Value) | EmbeddedOut(it: Iter)

  function DecodeSos(buff: seq<Byte>): (r: Option<Iter>)
    ensures r.Some? ==> |r.value.buff| + 8 <= |buff|
  {
    if |buff| <= 8 then None
    else
      var count, size := FromLe(buff[..4]), FromLe(buff[4..8]);
      if |buff| < size || size < 8 then None else Some(Iter(count, buff[8..size]))
  }

  function Chopped(s: seq<Byte>): seq<Byte> { s[..if |s| == 0 then 0 else |s| - 1] }

  function FirstNul(s: seq<Byte>): (r: Option<nat>)
    ensures r.None? <==> 0 !in s
    ensures r.Some? ==> r.value < |s| && s[r.value] == 0 && 0 !in s[..r.value]
  {
    if s == [] then None
    else if s[0] == 0 then Some(0)
    else
      match FirstNul(s[1..])
      case None => None
      case Some(p) => assert s[..p + 1] == [s[0]] + s[1..][..p]; Some(p + 1)
  }

  function Interpret(t: CType, data: seq<Byte>): (r: Option<Item>)
    ensures r.Some? && r.value.EmbeddedOut? ==> |r.value.it.buff| < |data|
  {
    match t
    case TInvalid => None
    case TInt32 => Some(Plain(Int32(Signed(FromLe(data), 4))))
    case TUInt32 => Some(Plain(UInt32(FromLe(data))))
    case TInt64 => Some(Plain(Int64(Signed(FromLe(data), 8))))
    case TUInt64 => Some(Plain(UInt64(FromLe(data))))
    case TFloat => Some(Plain(Float(FromLe(data))))
    case TDouble => Some(Plain(Double(FromLe(data))))
    case TString => if ValidUtf8(Chopped(data)) then Some(Plain(String(Chopped(data)))) else None
    case TError => if ValidUtf8(Chopped(data)) then Some(Plain(Error(Chopped(data)))) else None
    case TOpaque => Some(Plain(Opaque(data)))
    case TFunction =>
      var s := Chopped(data);
      (match FirstNul(s)
       case None => None
       case Some(p) =>
         if ValidUtf8(s[..p]) && ValidUtf8(s[p + 1..]) then Some(Plain(Function(s[..p], s[p + 1..]))) else None)
    case TEmbedded =>
      match DecodeSos(data) case None => None case Some(it) => Some(EmbeddedOut(it))
  }

  /** One step of the iterator; a nested list stays an iterator. */
  function Parse(it: Iter): (r: Option<(Item, Iter)>)
    ensures r.Some? ==> it.count > 0 && r.value.1.count == it.count - 1 && |r.value.1.buff| + 5 <= |it.buff|
    ensures r.Some? && r.value.0.EmbeddedOut? ==> |r.value.0.it.buff| < |it.buff|
  {
    if |it.buff| < 5 || it.count == 0 then None
    else
      match FromTag(it.buff[0])
      case None => None
      case Some(t) =>
        var offset := if Width(t).Some? then 1 else 5;
        var length := if Width(t).Some? then Width(t).value else FromLe(it.buff[1..5]);
        if |it.buff| < length + offset then None
        else
          match Interpret(t, it.buff[offset..offset + length])
          case None => None
          case Some(item) => Some((item, Iter(it.count - 1, it.buff[offset + length..])))
  }

  /** What the iterator makes of the bytes at its front, by their tag. */
  lemma ParsedBytes(it: Iter)
    requires it.count > 0 && |it.buff| >= 5
    ensures it.buff[0] == 0 || it.buff[0] > 11 ==> Parse(it) == None
    ensures var word, rest := FromLe(it.buff[1..5]), Iter(it.count - 1, it.buff[5..]);
            && (it.buff[0] == 1 ==>
                  Parse(it) == Some((Plain(Int32(if word >= 0x8000_0000 then word - 0x1_0000_0000 else word)), rest)))
            && (it.buff[0] == 2 ==> Parse(it) == Some((Plain(UInt32(word)), rest)))
            && (it.buff[0] == 5 ==> Parse(it) == Some((Plain(Float(word)), rest)))
    ensures it.buff[0] in [3, 4, 6] && |it.buff| < 9 ==> Parse(it) == None
    ensures |it.buff| >= 9 ==>
              var word, rest := FromLe(it.buff[1..9]), Iter(it.count - 1, it.buff[9..]);
              && (it.buff[0] == 3 ==>
                    Parse(it) == Some((Plain(Int64(if word >= 0x8000_0000_0000_0000 then word - 0x1_0000_0000_0000_0000
                                                   else word)), rest)))
              && (it.buff[0] == 4 ==> Parse(it) == Some((Plain(UInt64(word)), rest)))
              && (it.buff[0] == 6 ==> Parse(it) == Some((Plain(Double(word)), rest)))
  {
    Widths();
  }

  /** With a length field, the iterator takes that many bytes after it or nothing. */
  lemma ParsedLength(it: Iter)
    requires it.count > 0 && |it.buff| >= 5 && 7 <= it.buff[0] <= 11
    ensures var n := FromLe(it.buff[1..5]);
            if |it.buff| < n + 5 then Parse(it) == None
            else
              Parse(it) == match Taken(it.buff[0], it.buff[5..5 + n])
                           case None => None
                           case Some(item) => Some((item, Iter(it.count - 1, it.buff[5 + n..])))
  {
    hide FromLe, Interpret;
  }

  function Taken(tag: Byte, data: seq<Byte>): Option<Item>
    requires 7 <= tag <= 11
  {
    Interpret(FromTag(tag).value, data)
  }

  /** What is made of those bytes: texts lose their last byte, a module name ends at the first NUL. */
  lemma TakenBytes(data: seq<Byte>, last: Byte)
    ensures Taken(7, data + [last]) == if ValidUtf8(data) then Some(Plain(Error(data))) else None
    ensures Taken(8, data + [last]) == if ValidUtf8(data) then Some(Plain(String(data))) else None
    ensures Taken(7, []) == Some(Plain(Error([]))) && Taken(8, []) == Some(Plain(String([]))) && Taken(10, []) == None
    ensures Taken(9, data) == Some(Plain(Opaque(data)))
    ensures 0 !in data ==> Taken(10, data + [last]) == None
    ensures Taken(11, data) == match DecodeSos(data) case None => None case Some(it) => Some(EmbeddedOut(it))
  {
    hide ValidUtf8, DecodeSos, FirstNul;
    assert Chopped(data + [last]) == data;
    EmptyIsValid();
  }

  lemma EmptyIsValid()
    ensures ValidUtf8([]) && Chopped([]) == []
  {
  }

  lemma TakenFunction(mod: seq<Byte>, name: seq<Byte>, last: Byte)
    requires 0 !in mod
    ensures Taken(10, mod + [0] + name + [last]) ==
            if ValidUtf8(mod) && ValidUtf8(name) then Some(Plain(Function(mod, name))) else None
  {
    hide ValidUtf8;
    var text := mod + [0] + name;
    assert Chopped(text + [last]) == text;
    SplitAtNul(mod, name);
  }

  lemma {:induction false} SplitAtNul(mod: seq<Byte>, name: seq<Byte>)
    requires 0 !in mod
    ensures var text := mod + [0] + name;
            FirstNul(text) == Some(|mod|) && text[..|mod|] == mod && text[|mod| + 1..] == name
  {
    if mod != [] {
      SplitAtNul(mod[1..], name);
      assert (mod + [0] + name)[1..] == mod[1..] + [0] + name;
    }
  }

  /** The eager decoder: nested lists are collected on the spot. */
  function Next(it: Iter): (r: Option<(Value, Iter)>)
    ensures r.Some? ==> |r.value.1.buff| < |it.buff|
    decreases |it.buff|, 0
  {
    match Parse(it)
    case None => None
    case Some((Plain(v), rest)) => Some((v, rest))
    case Some((EmbeddedOut(inner), rest)) => Some((Embedded(Collect(inner)), rest))
  }

  function Collect(it: Iter): seq<Value>
    decreases |it.buff|, 1
  {
    match Next(it) case None => [] case Some((v, rest)) => [v] + Collect(rest)
  }

  function Forced(item: Item): Value {
    match item case Plain(v) => v case EmbeddedOut(it) => Embedded(Collect(it))
  }

  /** What a lazy iterator yields: nested lists stay iterators. */
  function CollectLazy(it: Iter): seq<Item>
    decreases |it.buff|
  {
    match Parse(it) case None => [] case Some((item, rest)) => [item] + CollectLazy(rest)
  }

  function ForceAll(items: seq<Item>): seq<Value> {
    if items == [] then [] else [Forced(items[0])] + ForceAll(items[1..])
  }

  /** On any bytes: walking lazily and then forcing everything gives what the eager decoder gives. */
  lemma {:induction false} LazyAgrees(it: Iter)
    ensures ForceAll(CollectLazy(it)) == Collect(it)
    decreases |it.buff|
  {
    match Parse(it)
    case None =>
    case Some((item, rest)) =>
      LazyAgrees(rest);
      assert CollectLazy(it)[1..] == CollectLazy(rest);
  }

  // ----- round trip -----

  /** Values that survive: nested lists are not empty and module names hold no NUL. */
  predicate Representable(v: Value)
    decreases v
  {
    match v
    case Function(m, _) => 0 !in m
    case Embedded(vs) => vs != [] && AllRepresentable(vs)
    case _ => true
  }

  predicate AllRepresentable(vs: seq<Value>)
    decreases vs, 0
  {
    forall k :: 0 <= k < |vs| ==> Representable(vs[k])
  }

  lemma ScalarRoundTrip(v: Value)
    requires WellTyped(v) && Width(TypeOf(v)).Some?
    ensures Interpret(TypeOf(v), Body(v)) == Some(Plain(v))
  {
    Widths();
    match v
    case Int32(i) => FromLeLe(Unsigned(i, 4), 4);
    case UInt32(u) => FromLeLe(u, 4);
    case Int64(i) => FromLeLe(Unsigned(i, 8), 8);
    case UInt64(u) => FromLeLe(u, 8);
    case Float(b) => FromLeLe(b, 4);
    case Double(b) => FromLeLe(b, 8);
  }

  lemma FunctionRoundTrip(m: seq<Byte>, n: seq<Byte>)
    requires ValidUtf8(m) && ValidUtf8(n)
    ensures Interpret(TFunction, m + [0] + n + [0]) == Some(Plain(Function(m, n))) <==> 0 !in m
  {
    hide ValidUtf8, FirstNul;
    var s := Chopped(m + [0] + n + [0]);
    assert s == m + [0] + n && s[|m|] == 0;
    var p := FirstNul(s).value;
    assert forall i :: 0 <= i < p ==> s[..p][i] == s[i] != 0;
    assert p <= |m|;
    if p == |m| {
      assert s[..p] == m && s[p + 1..] == n;
    } else {
      assert m[p] == 0 && |s[..p]| != |m|;
    }
  }

  lemma {:induction false} ValueRoundTrip(v: Value)
    requires WellTyped(v) && EncodedSize(v) < 0x1_0000_0000
    ensures var r := Interpret(TypeOf(v), Body(v)); r.Some? && Forced(r.value) == v <==> Representable(v)
    decreases v
  {
    hide ValidUtf8, FirstNul, FromLe, Le, DecodeSos, Collect, EncodeAll;
    if Width(TypeOf(v)).Some? {
      ScalarRoundTrip(v);
    } else {
      match v
      case Error(s) => assert Chopped(s + [0]) == s;
      case String(s) => assert Chopped(s + [0]) == s;
      case Opaque(_) =>
      case Function(m, n) => FunctionRoundTrip(m, n);
      case Embedded(vs) =>
        DecodeOfEncode(vs, []);
        assert Encode(vs) + [] == Encode(vs);
        ListRoundTrip(vs);
    }
  }

  /** What the outer decoder makes of an encoding followed by other bytes. */
  lemma DecodeOfEncode(vs: seq<Value>, trailing: seq<Byte>)
    requires AllWellTyped(vs) && EncodedLen(vs) < 0x1_0000_0000
    ensures DecodeSos(Encode(vs) + trailing) ==
      if vs == [] && trailing == [] then None else Some(Iter(|vs|, EncodeAll(vs)))
  {
    hide EncodeAll, DecodeSos, EncodedLen;
    EncodedExactly(vs);
    Announces(vs);
    assert Encode(vs) + trailing == Le(|vs|, 4) + Le(EncodedLen(vs), 4) + EncodeAll(vs) + trailing;
    DecodeFramed(|vs|, EncodeAll(vs), trailing);
  }

  lemma Announces(vs: seq<Value>)
    requires AllWellTyped(vs)
    ensures EncodedLen(vs) == 8 + |EncodeAll(vs)| && |vs| <= |EncodeAll(vs)|
    ensures EncodeAll(vs) == [] <==> vs == []
  {
    EncodedExactly(vs);
  }

  lemma DecodeFramed(count: nat, body: seq<Byte>, trailing: seq<Byte>)
    requires count < 0x1_0000_0000 && 8 + |body| < 0x1_0000_0000
    ensures DecodeSos(Le(count, 4) + Le(8 + |body|, 4) + body + trailing) ==
      if body == [] && trailing == [] then None else Some(Iter(count, body))
  {
    hide Le, FromLe;
    var b := Le(count, 4) + Le(8 + |body|, 4) + body + trailing;
    Widths();
    FromLeLe(count, 4);
    FromLeLe(8 + |body|, 4);
    assert b[..4] == Le(count, 4) && b[4..8] == Le(8 + |body|, 4);
    assert b[8..8 + |body|] == body;
  }

  /** Cutting one encoded value off the front of the buffer. */
  lemma ParseEncoded(v: Value, rest: seq<Byte>, count: nat)
    requires WellTyped(v) && EncodedSize(v) < 0x1_0000_0000 && count > 0
    ensures Parse(Iter(count, EncodeValue(v) + rest)) ==
      match Interpret(TypeOf(v), Body(v))
      case None => None
      case Some(item) => Some((item, Iter(count - 1, rest)))
  {
    var t, b := TypeOf(v), EncodeValue(v) + rest;
    BodySize(v);
    assert b[0] == ToTag(t) && FromTag(b[0]) == Some(t);
    if Width(t).Some? {
      assert b[1..1 + |Body(v)|] == Body(v) && b[1 + |Body(v)|..] == rest;
    } else {
      Widths();
      FromLeLe(|Body(v)|, 4);
      assert b[1..5] == Le(|Body(v)|, 4);
      assert b[5..5 + |Body(v)|] == Body(v) && b[5 + |Body(v)|..] == rest;
    }
  }

  lemma {:induction false} ListRoundTrip(vs: seq<Value>)
    requires AllWellTyped(vs) && EncodedLen(vs) < 0x1_0000_0000
    ensures Collect(Iter(|vs|, EncodeAll(vs))) == vs <==> AllRepresentable(vs)
    decreases vs
  {
    if vs != [] {
      var v, tail := vs[0], vs[1..];
      ParseEncoded(v, EncodeAll(tail), |vs|);
      ValueRoundTrip(v);
      ListRoundTrip(tail);
      assert vs == [v] + tail;
      assert AllRepresentable(vs) <==> Representable(v) && AllRepresentable(tail) by {
        assert forall k :: 0 <= k < |tail| ==> tail[k] == vs[k + 1];
      }
    }
  }

  /**
    * Encoding and eager decoding, at any nesting depth and with any bytes following, gives back the
    * values exactly when they are representable and the message is not a bare empty list.
    */
  lemma RoundTrip(vs: seq<Value>, trailing: seq<Byte>)
    requires AllWellTyped(vs) && EncodedLen(vs) < 0x1_0000_0000
    ensures var it := DecodeSos(Encode(vs) + trailing);
      it.Some? && Collect(it.value) == vs <==> AllRepresentable(vs) && (vs != [] || trailing != [])
  {
    DecodeOfEncode(vs, trailing);
    ListRoundTrip(vs);
  }

  /** Different representable lists never share an encoding. */
  lemma EncodeInjective(vs: seq<Value>, ws: seq<Value>)
    requires AllWellTyped(vs) && EncodedLen(vs) < 0x1_0000_0000 && AllRepresentable(vs)
    requires AllWellTyped(ws) && EncodedLen(ws) < 0x1_0000_0000 && AllRepresentable(ws)
    requires Encode(vs) == Encode(ws)
    ensures vs == ws
  {
    RoundTrip(vs, [0]);
    RoundTrip(ws, [0]);
  }

  /** On any bytes: what follows the announced size does not change what is decoded. */
  lemma TrailingIgnored(buff: seq<Byte>, trailing: seq<Byte>)
    requires DecodeSos(buff).Some?
    ensures DecodeSos(buff + trailing) == DecodeSos(buff)
  {
    var b := buff + trailing;
    assert b[..4] == buff[..4] && b[4..8] == buff[4..8];
    assert b[8..FromLe(buff[4..8])] == buff[8..FromLe(buff[4..8])];
  }

  /** On any bytes: no more values come out than were announced or than the bytes have room for. */
  lemma {:induction false} CollectBounded(it: Iter)
    ensures |Collect(it)| <= it.count && 5 * |Collect(it)| <= |it.buff|
    decreases |it.buff|
  {
    if Next(it).Some? {
      CollectBounded(Next(it).value.1);
    }
  }

  // ----- the encoder as it runs: writing into a buffer -----

  method ComputeSize(v: Value) returns (size: nat)
    ensures size == EncodedSize(v)
    decreases v, 0
  {
    match v
    case Int32(_) => size := 4;
    case UInt32(_) => size := 4;
    case Float(_) => size := 4;
    case Int64(_) => size := 8;
    case UInt64(_) => size := 8;
    case Double(_) => size := 8;
    case String(s) => size := |s| + 1 + 4;
    case Error(s) => size := |s| + 1 + 4;
    case Opaque(b) => size := |b| + 4;
    case Function(m, n) => size := |m| + |n| + 2 + 4;
    case Embedded(vs) =>
      var len := ComputeLen(vs);
      size := len + 4;
  }

  method ComputeLen(values: seq<Value>) returns (len: nat)
    ensures len == EncodedLen(values)
    decreases values, 1
  {
    len := |values| + 8;
    for i := 0 to |values|
      invariant len == |values| + 8 + SizeSum(values[..i])
    {
      var size := ComputeSize(values[i]);
      SizeSumNext(values, i);
      len := len + size;
    }
    assert values[..|values|] == values;
  }

  lemma {:induction false} SizeSumNext(vs: seq<Value>, i: nat)
    requires i < |vs|
    ensures SizeSum(vs[..i + 1]) == SizeSum(vs[..i]) + EncodedSize(vs[i])
    decreases i
  {
    if i > 0 {
      SizeSumNext(vs[1..], i - 1);
      assert vs[..i + 1][1..] == vs[1..][..i] && vs[..i][1..] == vs[1..][..i - 1];
    } else {
      assert vs[..1][1..] == [];
    }
  }

  lemma {:induction false} EncodeAllNext(vs: seq<Value>, i: nat)
    requires i < |vs| && AllWellTyped(vs)
    ensures AllWellTyped(vs[..i + 1]) && AllWellTyped(vs[..i])
    ensures EncodeAll(vs[..i + 1]) == EncodeAll(vs[..i]) + EncodeValue(vs[i])
    decreases i
  {
    hide EncodeValue, WellTyped;
    if i > 0 {
      EncodeAllNext(vs[1..], i - 1);
      assert vs[..i + 1][1..] == vs[1..][..i] && vs[..i][1..] == vs[1..][..i - 1];
    } else {
      assert vs[..1][1..] == [];
    }
  }

  lemma OverwriteTwice(s: seq<Byte>, at: nat, a: seq<Byte>, b: seq<Byte>)
    requires at + |a| + |b| <= |s|
    ensures Overwrite(Overwrite(s, at, a), at + |a|, b) == Overwrite(s, at, a + b)
  {
  }

  method Write(buf: array<Byte>, at: nat, bytes: seq<Byte>)
    requires at + |bytes| <= buf.Length
    modifies buf
    ensures buf[..] == Overwrite(old(buf[..]), at, bytes)
  {
    forall i | 0 <= i < |bytes| {
      buf[at + i] := bytes[i];
    }
  }
}
