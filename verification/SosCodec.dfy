/** The SOS encoder and iterator as they run, over a byte buffer and a moving cursor (sos-rs/src/lib.rs). */
module SosCodec {
  import opened Wrappers
  import opened LittleEndian
  import opened Sos

  // ----- encoding -----

  method WriteBody(buf: array<Byte>, at: nat, v: Value)
    requires WellTyped(v) && at + |Body(v)| <= buf.Length
    modifies buf
    ensures buf[..] == Overwrite(old(buf[..]), at, Body(v))
    decreases v, 0
  {
    hide Overwrite, Le, ValidUtf8;
    ghost var was := buf[..];
    match v
    case Error(s) =>
      Write(buf, at, s);
      Write(buf, at + |s|, [0]);
      OverwriteTwice(was, at, s, [0]);
    case String(s) =>
      Write(buf, at, s);
      Write(buf, at + |s|, [0]);
      OverwriteTwice(was, at, s, [0]);
    case Function(m, n) =>
      Write(buf, at, m);
      Write(buf, at + |m|, [0]);
      OverwriteTwice(was, at, m, [0]);
      Write(buf, at + |m| + 1, n);
      OverwriteTwice(was, at, m + [0], n);
      Write(buf, at + |m| + 1 + |n|, [0]);
      OverwriteTwice(was, at, m + [0] + n, [0]);
    case Embedded(vs) =>
      EncodedExactly(vs);
      var _ := EncodeSos(buf, at, EncodedLen(vs), vs);
    case _ =>
      Write(buf, at, Body(v));
  }

  method WriteValue(buf: array<Byte>, at: nat, v: Value) returns (next: nat)
    requires WellTyped(v) && at + |EncodeValue(v)| <= buf.Length
    modifies buf
    ensures next == at + |EncodeValue(v)|
    ensures buf[..] == Overwrite(old(buf[..]), at, EncodeValue(v))
    decreases v, 1
  {
    hide Overwrite, Le, Body;
    ghost var was := buf[..];
    BodySize(v);
    var length := ComputeSize(v);
    var tag := [ToTag(TypeOf(v))];
    Write(buf, at, tag);
    if Width(TypeOf(v)).Some? {
      WriteBody(buf, at + 1, v);
      OverwriteTwice(was, at, tag, Body(v));
      assert EncodeValue(v) == tag + Body(v);
      next := at + 1 + length;
    } else {
      length := length - 4;
      Write(buf, at + 1, Le(length, 4));
      OverwriteTwice(was, at, tag, Le(length, 4));
      WriteBody(buf, at + 5, v);
      OverwriteTwice(was, at, tag + Le(length, 4), Body(v));
      assert EncodeValue(v) == tag + Le(length, 4) + Body(v);
      next := at + 5 + length;
    }
  }

  /** Fills exactly the announced length, from `at`, and returns it; nothing else in the buffer changes. */
  method EncodeSos(buf: array<Byte>, at: nat, room: nat, values: seq<Value>) returns (n: nat)
    requires AllWellTyped(values) && at + room <= buf.Length && EncodedLen(values) <= room
    modifies buf
    ensures n == EncodedLen(values) == |Encode(values)|
    ensures buf[..] == Overwrite(old(buf[..]), at, Encode(values))
    decreases values, 2
  {
    hide Overwrite, Le, EncodeAll, EncodedLen;
    ghost var was := buf[..];
    var len := ComputeLen(values);
    EncodedExactly(values);
    Announces(values);
    ghost var head := Le(|values|, 4) + Le(len, 4);
    Write(buf, at, Le(|values|, 4));
    Write(buf, at + 4, Le(len, 4));
    OverwriteTwice(was, at, Le(|values|, 4), Le(len, 4));
    var offset := 8;
    NoneYet(values, head);
    for i := 0 to |values|
      invariant AllWellTyped(values[..i])
      invariant offset == 8 + |EncodeAll(values[..i])|
      invariant offset + |EncodeAll(values[i..])| == len
      invariant buf[..] == Overwrite(was, at, head + EncodeAll(values[..i]))
    {
      EncodeAllNext(values, i);
      EncodeAllFront(values[i..]);
      assert values[i..][1..] == values[i + 1..];
      BodySize(values[i]);
      var next := WriteValue(buf, at + offset, values[i]);
      OverwriteTwice(was, at, head + EncodeAll(values[..i]), EncodeValue(values[i]));
      assert head + EncodeAll(values[..i]) + EncodeValue(values[i]) == head + EncodeAll(values[..i + 1]);
      offset := next - at;
    }
    assert values[..|values|] == values;
    n := offset;
  }

  lemma NoneYet(vs: seq<Value>, head: seq<Byte>)
    requires AllWellTyped(vs)
    ensures EncodeAll(vs[..0]) == [] && head + EncodeAll(vs[..0]) == head && vs[0..] == vs
  {
  }

  lemma EncodeAllFront(vs: seq<Value>)
    requires AllWellTyped(vs) && vs != []
    ensures AllWellTyped(vs[1..]) && |EncodeAll(vs)| == |EncodeValue(vs[0])| + |EncodeAll(vs[1..])|
  {
  }

  // ----- decoding -----

  class DecodeIter {
    var count: nat
    var buff: seq<Byte>
    const lazy: bool

    /** The iterator's state as a value. */
    function At(): Iter
      reads this
    {
      Iter(count, buff)
    }

    constructor (it: Iter, lazy: bool)
      ensures At() == it && this.lazy == lazy
    {
      count := it.count;
      buff := it.buff;
      this.lazy := lazy;
    }

    /** One call of `next`; a failed call leaves the iterator where it is. */
    method Next() returns (r: Option<Item>)
      modifies this
      ensures match Parse(old(At()))
        case None => r == None && At() == old(At())
        case Some((item, rest)) =>
          && At() == rest && r.Some?
          && (if lazy then r.value == item else r.value == Plain(Forced(item)))
      decreases |buff|, 0
    {
      if |buff| < 5 || count == 0 {
        return None;
      }
      var offset := 1;
      var t := FromTag(buff[0]);
      if t.None? {
        return None;
      }
      var length: nat;
      match Width(t.value) {
        case Some(w) => length := w;
        case None =>
          offset := offset + 4;
          length := FromLe(buff[1..5]);
      }
      if |buff| < length + offset {
        return None;
      }
      var item := Interpret(t.value, buff[offset..offset + length]);
      if item.None? {
        return None;
      }
      r := item;
      if item.value.EmbeddedOut? && !lazy {
        var nested := new DecodeIter(item.value.it, lazy);
        var vs := nested.CollectAll();
        r := Some(Plain(Embedded(vs)));
      }
      buff := buff[length + offset..];
      count := count - 1;
    }

    /** Drains an eager iterator. */
    method CollectAll() returns (vs: seq<Value>)
      requires !lazy
      modifies this
      ensures vs == Collect(old(At()))
      decreases |buff|, 1
    {
      vs := [];
      ghost var start := At();
      while true
        invariant |buff| <= |start.buff| && vs + Collect(At()) == Collect(start)
        decreases |buff|
      {
        ghost var before := At();
        var r := Next();
        match r {
          case None => return;
          case Some(item) =>
            vs := vs + [item.v];
            assert Collect(before) == [item.v] + Collect(At());
        }
      }
    }
  }

}
