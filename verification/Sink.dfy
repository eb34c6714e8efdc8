/** The fixed-buffer byte sink and the encoders that write through it. */
module Sink {
  import opened Machine
  import opened Wire
  import opened GossipCodec

  /** A caller's buffer written from the front; a write that does not fit changes nothing. */
  class SliceSink {
    var buf: array<u8>
    var pos: nat
    var overflow: bool

    ghost predicate Valid()
      reads this
    {
      pos <= buf.Length
    }

    function Written(): Bytes
      requires Valid()
      reads this, buf
    {
      buf[..pos]
    }

    constructor (capacity: nat)
      ensures Valid() && fresh(buf) && buf.Length == capacity && Written() == [] && !overflow
    {
      buf := new u8[capacity](_ => 0);
      pos, overflow := 0, false;
    }

    method Put(bytes: Bytes) returns (ok: bool)
      requires Valid()
      modifies this`pos, this`overflow, buf
      ensures Valid()
      ensures ok <==> old(pos) + |bytes| <= buf.Length
      ensures Written() == if ok then old(Written()) + bytes else old(Written())
      ensures overflow == (old(overflow) || !ok)
    {
      var end := pos + |bytes|;
      ok := end <= buf.Length;
      if ok {
        forall i | 0 <= i < |bytes| {
          buf[pos + i] := bytes[i];
        }
        pos := end;
      } else {
        overflow := true;
      }
    }

    /** Write a record field by field, stopping at the first field that does not fit. It succeeds
        exactly when the whole record fits, and then has written its canonical encoding. */
    method PutRecord(ks: seq<Kind>, vs: seq<Value>) returns (ok: bool)
      requires Valid() && AllFit(ks, vs)
      modifies this`pos, this`overflow, buf
      ensures Valid()
      ensures ok <==> old(pos) + |Write(ks, vs, [])| <= buf.Length
      ensures ok ==> Written() == old(Written()) + Write(ks, vs, []) && overflow == old(overflow)
      ensures !ok ==> overflow
    {
      hide Write, WriteField, Fits, AllFit;
      ok := true;
      ghost var goal := Written() + Write(ks, vs, []);
      var i := 0;
      FitPointwise(ks, vs);
      Suffix(ks, vs, 0);
      while i < |ks|
        invariant 0 <= i <= |ks| && Valid()
        invariant AllFit(ks[i..], vs[i..])
        invariant goal == Written() + Write(ks[i..], vs[i..], [])
        invariant overflow == old(overflow)
      {
        Suffix(ks, vs, i);
        ghost var field := WriteField(ks[i], vs[i], []);
        ghost var rest := Write(ks[i + 1..], vs[i + 1..], []);
        assert Written() + (field + rest) == (Written() + field) + rest;
        ok := Put(WriteField(ks[i], vs[i], []));
        if !ok {
          return;
        }
        i := i + 1;
      }
      Suffix(ks, vs, i);
    }
  }

  lemma Suffix(ks: seq<Kind>, vs: seq<Value>, i: nat)
    requires |ks| == |vs| && i <= |ks| && AllFit(ks[i..], vs[i..])
    ensures i == 0 ==> ks[i..] == ks && vs[i..] == vs
    ensures i == |ks| ==> Write(ks[i..], vs[i..], []) == []
    ensures i < |ks| ==>
              && Fits(ks[i], vs[i])
              && AllFit(ks[i + 1..], vs[i + 1..])
              && Write(ks[i..], vs[i..], []) == WriteField(ks[i], vs[i], []) + Write(ks[i + 1..], vs[i + 1..], [])
  {
    if i < |ks| {
      assert ks[i..][1..] == ks[i + 1..] && vs[i..][1..] == vs[i + 1..];
      WriteFieldTail(ks[i], vs[i], Write(ks[i + 1..], vs[i + 1..], []));
    }
  }

  /** The encoder never runs out of buffer, and what it returns is the canonical frame. */
  method EncodeGossipFrame(m: GossipMessage) returns (frame: Option<Bytes>)
    ensures frame == Some(Encode(m))
  {
    hide Write, Fits, AllFit, PayloadValues, PayloadShape, Seal;
    EncodeFits(m);
    EncodeParts(m);
    ghost var payload, seal := Write(PayloadShape(m), PayloadValues(m), []), Write(SEAL_SHAPE, Seal(m), []);
    var sink := new SliceSink(GOSSIP_FRAME_MAX_LEN);
    var ok := sink.Put([Variant(m)]);
    assert sink.Written() == [Variant(m)];
    if ok {
      ok := sink.PutRecord(PayloadShape(m), PayloadValues(m));
      assert sink.Written() == [Variant(m)] + payload;
    }
    if ok {
      ok := sink.PutRecord(SEAL_SHAPE, Seal(m));
      assert sink.Written() == [Variant(m)] + payload + seal;
    }
    frame := if ok then Some(sink.Written()) else None;
  }

  lemma EncodeParts(m: GossipMessage)
    ensures Encode(m) == [Variant(m)] + Write(PayloadShape(m), PayloadValues(m), []) + Write(SEAL_SHAPE, Seal(m), [])
  {
    hide Write, Fits, AllFit, PayloadValues, PayloadShape, Seal;
    MessageFits(m);
    WriteConcat(PayloadShape(m), SEAL_SHAPE, PayloadValues(m), Seal(m), []);
    WriteTail(PayloadShape(m), PayloadValues(m), Write(SEAL_SHAPE, Seal(m), []));
  }
}
