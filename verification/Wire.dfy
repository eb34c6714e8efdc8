/** Canonical wire shapes: what a record is, field by field, and how it is written and read.
    One pair of theorems covers every shape: reading inverts writing, and writing inverts
    reading, so the encodings of a shape and its values are in bijection. */
module Wire {
  import opened Machine
  import opened Endian

  const OPAQUE_TAG_CAP: nat := 32

  datatype Kind =
    | Int(width: nat)                      // a little-endian integer
    | Fixed(len: nat)                      // a fixed-width byte array, no prefix
    | Tag                                  // an opaque tag: length_u32, then at most 32 bytes
    | Lit(bytes: Bytes)                    // a constant
    | List(cap: nat, elem: seq<Kind>)      // count_u32, then at most `cap` records

  datatype Value =
    | Num(v: nat)
    | Raw(b: Bytes)
    | Many(items: seq<seq<Value>>)

  /** The value is one that a field of this kind can hold. */
  predicate Fits(k: Kind, v: Value)
    decreases k, 0
  {
    match k
    case Int(w) => v.Num? && v.v < Pow256(w)
    case Fixed(n) => v.Raw? && |v.b| == n
    case Tag => v.Raw? && |v.b| <= OPAQUE_TAG_CAP
    case Lit(bytes) => v == Raw(bytes)
    case List(cap, elem) => v.Many? && |v.items| <= cap && |v.items| < 0x1_0000_0000 && ManyFit(elem, v.items)
  }

  predicate AllFit(ks: seq<Kind>, vs: seq<Value>)
    decreases ks, 1
  {
    |vs| == |ks| && (ks == [] || (Fits(ks[0], vs[0]) && AllFit(ks[1..], vs[1..])))
  }

  predicate ManyFit(elem: seq<Kind>, items: seq<seq<Value>>)
    decreases elem, 2, |items|
  {
    items == [] || (AllFit(elem, items[0]) && ManyFit(elem, items[1..]))
  }

  lemma {:induction false} FitPointwise(ks: seq<Kind>, vs: seq<Value>)
    ensures AllFit(ks, vs) <==> (|vs| == |ks| && forall i :: 0 <= i < |ks| ==> Fits(ks[i], vs[i]))
    decreases |ks|
  {
    if ks != [] && |vs| == |ks| {
      FitPointwise(ks[1..], vs[1..]);
      assert (forall i :: 0 <= i < |ks| ==> Fits(ks[i], vs[i])) <==>
             (Fits(ks[0], vs[0]) && forall i :: 0 <= i < |ks[1..]| ==> Fits(ks[1..][i], vs[1..][i])) by
      {
        if Fits(ks[0], vs[0]) && forall i :: 0 <= i < |ks[1..]| ==> Fits(ks[1..][i], vs[1..][i]) {
          forall i | 0 < i < |ks| ensures Fits(ks[i], vs[i]) {
            assert Fits(ks[1..][i - 1], vs[1..][i - 1]);
          }
        }
      }
    }
  }

  /** A shape made of two parts holds a value of each. */
  lemma FitConcat(ks: seq<Kind>, ls: seq<Kind>, vs: seq<Value>, ws: seq<Value>)
    requires |vs| == |ks|
    ensures AllFit(ks + ls, vs + ws) <==> AllFit(ks, vs) && AllFit(ls, ws)
  {
    hide Fits;
    FitPointwise(ks, vs);
    FitPointwise(ls, ws);
    FitPointwise(ks + ls, vs + ws);
    if AllFit(ks + ls, vs + ws) {
      forall i | 0 <= i < |ks| ensures Fits(ks[i], vs[i]) {
        assert Fits((ks + ls)[i], (vs + ws)[i]);
      }
      forall i | 0 <= i < |ls| ensures Fits(ls[i], ws[i]) {
        assert Fits((ks + ls)[|ks| + i], (vs + ws)[|ks| + i]);
      }
    }
  }

  lemma FitSplit(ks: seq<Kind>, ls: seq<Kind>, vs: seq<Value>)
    requires AllFit(ks + ls, vs)
    ensures |vs| == |ks| + |ls| && AllFit(ks, vs[..|ks|]) && AllFit(ls, vs[|ks|..])
  {
    hide Fits, AllFit;
    FitPointwise(ks + ls, vs);
    assert vs == vs[..|ks|] + vs[|ks|..];
    FitConcat(ks, ls, vs[..|ks|], vs[|ks|..]);
  }

  lemma {:induction false} ManyFitPointwise(elem: seq<Kind>, items: seq<seq<Value>>)
    ensures ManyFit(elem, items) <==> forall i :: 0 <= i < |items| ==> AllFit(elem, items[i])
    decreases |items|
  {
    if items != [] {
      ManyFitPointwise(elem, items[1..]);
      assert (forall i :: 0 <= i < |items| ==> AllFit(elem, items[i])) <==>
             (AllFit(elem, items[0]) && forall i :: 0 <= i < |items[1..]| ==> AllFit(elem, items[1..][i])) by
      {
        if AllFit(elem, items[0]) && forall i :: 0 <= i < |items[1..]| ==> AllFit(elem, items[1..][i]) {
          forall i | 0 < i < |items| ensures AllFit(elem, items[i]) {
            assert AllFit(elem, items[1..][i - 1]);
          }
        }
      }
    }
  }

  // ---- writing, in front of what follows ------------------------------------------------------

  function WriteField(k: Kind, v: Value, rest: Bytes): Bytes
    requires Fits(k, v)
    decreases k, 0
  {
    match k
    case Int(w) => LE(v.v, w) + rest
    case Fixed(_) => v.b + rest
    case Tag => LE(|v.b|, 4) + (v.b + rest)
    case Lit(_) => v.b + rest
    case List(_, elem) => LE(|v.items|, 4) + WriteMany(elem, v.items, rest)
  }

  function Write(ks: seq<Kind>, vs: seq<Value>, rest: Bytes): Bytes
    requires AllFit(ks, vs)
    decreases ks, 1
  {
    if ks == [] then rest else WriteField(ks[0], vs[0], Write(ks[1..], vs[1..], rest))
  }

  function WriteMany(elem: seq<Kind>, items: seq<seq<Value>>, rest: Bytes): Bytes
    requires ManyFit(elem, items)
    decreases elem, 2, |items|
  {
    if items == [] then rest else Write(elem, items[0], WriteMany(elem, items[1..], rest))
  }

  lemma WriteFieldTail(k: Kind, v: Value, rest: Bytes)
    requires Fits(k, v)
    ensures WriteField(k, v, rest) == WriteField(k, v, []) + rest
    decreases k, 0
  {
    if k.List? {
      WriteManyTail(k.elem, v.items, rest);
    }
  }

  /** A record's encoding does not depend on what follows it. */
  lemma {:induction false} WriteTail(ks: seq<Kind>, vs: seq<Value>, rest: Bytes)
    requires AllFit(ks, vs)
    ensures Write(ks, vs, rest) == Write(ks, vs, []) + rest
    decreases ks, 1
  {
    if ks != [] {
      var tail := Write(ks[1..], vs[1..], []);
      WriteTail(ks[1..], vs[1..], rest);
      WriteFieldTail(ks[0], vs[0], tail + rest);
      WriteFieldTail(ks[0], vs[0], tail);
      assert (WriteField(ks[0], vs[0], []) + tail) + rest == WriteField(ks[0], vs[0], []) + (tail + rest);
    }
  }

  lemma {:induction false} WriteManyTail(elem: seq<Kind>, items: seq<seq<Value>>, rest: Bytes)
    requires ManyFit(elem, items)
    ensures WriteMany(elem, items, rest) == WriteMany(elem, items, []) + rest
    decreases elem, 2, |items|
  {
    if items != [] {
      var tail := WriteMany(elem, items[1..], []);
      WriteManyTail(elem, items[1..], rest);
      WriteTail(elem, items[0], tail + rest);
      WriteTail(elem, items[0], tail);
      assert (Write(elem, items[0], []) + tail) + rest == Write(elem, items[0], []) + (tail + rest);
    }
  }

  /** The encoding of two parts is the encoding of one in front of the other. */
  lemma {:induction false} WriteConcat(ks: seq<Kind>, ls: seq<Kind>, vs: seq<Value>, ws: seq<Value>, rest: Bytes)
    requires AllFit(ks, vs) && AllFit(ls, ws) && AllFit(ks + ls, vs + ws)
    ensures Write(ks + ls, vs + ws, rest) == Write(ks, vs, Write(ls, ws, rest))
    decreases |ks|
  {
    if ks == [] {
      assert ks + ls == ls && vs + ws == ws;
    } else {
      assert (ks + ls)[1..] == ks[1..] + ls && (vs + ws)[1..] == vs[1..] + ws;
      WriteConcat(ks[1..], ls, vs[1..], ws, rest);
    }
  }

  // ---- reading, from a cursor into what is left ------------------------------------------------

  type Read<T> = Option<(T, Bytes)>

  function Take(b: Bytes, n: nat): Read<Bytes> {
    if n <= |b| then Some((b[..n], b[n..])) else None
  }

  function ReadInt(b: Bytes, w: nat): Read<nat> {
    var (s, rest) :- Take(b, w);
    Some((FromLE(s), rest))
  }

  function ReadField(k: Kind, b: Bytes): Read<Value>
    decreases k, 0
  {
    match k
    case Int(w) =>
      var (v, rest) :- ReadInt(b, w);
      Some((Num(v), rest))
    case Fixed(n) =>
      var (s, rest) :- Take(b, n);
      Some((Raw(s), rest))
    case Tag =>
      var (len, rest) :- ReadInt(b, 4);
      if len > OPAQUE_TAG_CAP then None
      else
        var (s, rest2) :- Take(rest, len);
        Some((Raw(s), rest2))
    case Lit(bytes) =>
      var (s, rest) :- Take(b, |bytes|);
      if s != bytes then None else Some((Raw(s), rest))
    case List(cap, elem) =>
      var (count, rest) :- ReadInt(b, 4);
      if count > cap then None
      else
        var (items, rest2) :- ReadMany(elem, count, rest);
        Some((Many(items), rest2))
  }

  function ReadAll(ks: seq<Kind>, b: Bytes): Read<seq<Value>>
    decreases ks, 1
  {
    if ks == [] then Some(([], b))
    else
      var (v, rest) :- ReadField(ks[0], b);
      var (vs, rest2) :- ReadAll(ks[1..], rest);
      Some(([v] + vs, rest2))
  }

  function ReadMany(elem: seq<Kind>, count: nat, b: Bytes): Read<seq<seq<Value>>>
    decreases elem, 2, count
  {
    if count == 0 then Some(([], b))
    else
      var (item, rest) :- ReadAll(elem, b);
      var (items, rest2) :- ReadMany(elem, count - 1, rest);
      Some(([item] + items, rest2))
  }

  // ---- reading inverts writing -------------------------------------------------------------------

  lemma TakeWritten(s: Bytes, rest: Bytes)
    ensures Take(s + rest, |s|) == Some((s, rest))
  {
  }

  lemma ReadWrittenInt(v: nat, w: nat, rest: Bytes)
    requires v < Pow256(w)
    ensures ReadInt(LE(v, w) + rest, w) == Some((v, rest))
  {
    TakeWritten(LE(v, w), rest);
    LERoundTrip(v, w);
  }

  lemma ReadWrittenField(k: Kind, v: Value, rest: Bytes)
    requires Fits(k, v)
    ensures ReadField(k, WriteField(k, v, rest)) == Some((v, rest))
    decreases k, 0
  {
    Widths();
    match k
    case Int(w) => ReadWrittenInt(v.v, w, rest);
    case Fixed(_) => TakeWritten(v.b, rest);
    case Tag =>
      ReadWrittenInt(|v.b|, 4, v.b + rest);
      TakeWritten(v.b, rest);
    case Lit(_) => TakeWritten(v.b, rest);
    case List(_, elem) =>
      ReadWrittenInt(|v.items|, 4, WriteMany(elem, v.items, rest));
      ReadWrittenMany(elem, v.items, rest);
  }

  lemma {:induction false} ReadWritten(ks: seq<Kind>, vs: seq<Value>, rest: Bytes)
    requires AllFit(ks, vs)
    ensures ReadAll(ks, Write(ks, vs, rest)) == Some((vs, rest))
    decreases ks, 1
  {
    if ks != [] {
      ReadWrittenField(ks[0], vs[0], Write(ks[1..], vs[1..], rest));
      ReadWritten(ks[1..], vs[1..], rest);
      assert vs == [vs[0]] + vs[1..];
    }
  }

  lemma {:induction false} ReadWrittenMany(elem: seq<Kind>, items: seq<seq<Value>>, rest: Bytes)
    requires ManyFit(elem, items)
    ensures ReadMany(elem, |items|, WriteMany(elem, items, rest)) == Some((items, rest))
    decreases elem, 2, |items|
  {
    if items != [] {
      ReadWritten(elem, items[0], WriteMany(elem, items[1..], rest));
      ReadWrittenMany(elem, items[1..], rest);
      assert items == [items[0]] + items[1..];
    }
  }

  // ---- writing inverts reading -------------------------------------------------------------------

  lemma WriteReadInt(b: Bytes, w: nat)
    ensures ReadInt(b, w).Some? ==>
              var (v, rest) := ReadInt(b, w).value;
              v < Pow256(w) && b == LE(v, w) + rest
  {
    if w <= |b| {
      FromLEBound(b[..w]);
      LEReadBack(b[..w]);
      assert b == b[..w] + b[w..];
    }
  }

  lemma WriteTaken(b: Bytes, n: nat)
    ensures Take(b, n).Some? ==> |Take(b, n).value.0| == n && b == Take(b, n).value.0 + Take(b, n).value.1
  {
  }

  lemma WriteReadField(k: Kind, b: Bytes)
    requires ReadField(k, b).Some?
    ensures var (v, rest) := ReadField(k, b).value;
            Fits(k, v) && b == WriteField(k, v, rest)
    decreases k, 0
  {
    match k
    case Int(w) => WriteReadInt(b, w);
    case Fixed(n) => WriteTaken(b, n);
    case Tag =>
      WriteReadInt(b, 4);
      var (len, rest) := ReadInt(b, 4).value;
      WriteTaken(rest, len);
    case Lit(bytes) => WriteTaken(b, |bytes|);
    case List(_, elem) =>
      Widths();
      WriteReadInt(b, 4);
      var (count, rest) := ReadInt(b, 4).value;
      WriteReadMany(elem, count, rest);
  }

  lemma {:induction false} WriteRead(ks: seq<Kind>, b: Bytes)
    requires ReadAll(ks, b).Some?
    ensures var (vs, rest) := ReadAll(ks, b).value;
            AllFit(ks, vs) && b == Write(ks, vs, rest)
    decreases ks, 1
  {
    if ks != [] {
      WriteReadField(ks[0], b);
      var (v, rest) := ReadField(ks[0], b).value;
      WriteRead(ks[1..], rest);
      var (vs, rest2) := ReadAll(ks[1..], rest).value;
      assert ([v] + vs)[1..] == vs;
    }
  }

  lemma {:induction false} WriteReadMany(elem: seq<Kind>, count: nat, b: Bytes)
    requires ReadMany(elem, count, b).Some?
    ensures var (items, rest) := ReadMany(elem, count, b).value;
            |items| == count && ManyFit(elem, items) && b == WriteMany(elem, items, rest)
    decreases elem, 2, count
  {
    if count != 0 {
      WriteRead(elem, b);
      var (item, rest) := ReadAll(elem, b).value;
      WriteReadMany(elem, count - 1, rest);
      var (items, rest2) := ReadMany(elem, count - 1, rest).value;
      assert ([item] + items)[1..] == items;
    }
  }

  // ---- lengths ---------------------------------------------------------------------------------------

  /** The most bytes a shape can take. */
  function MaxLen(ks: seq<Kind>): nat
    decreases ks, 1
  {
    if ks == [] then 0 else MaxFieldLen(ks[0]) + MaxLen(ks[1..])
  }

  function MaxFieldLen(k: Kind): nat
    decreases k, 0
  {
    match k
    case Int(w) => w
    case Fixed(n) => n
    case Tag => 4 + OPAQUE_TAG_CAP
    case Lit(bytes) => |bytes|
    case List(cap, elem) => 4 + cap * MaxLen(elem)
  }

  /** The most bytes the first `n` fields can take. */
  function MaxLenTo(ks: seq<Kind>, n: nat): nat
    requires n <= |ks|
    decreases n
  {
    if n == 0 then 0 else MaxLenTo(ks, n - 1) + MaxFieldLen(ks[n - 1])
  }

  lemma {:induction false} MaxLenSplits(ks: seq<Kind>, n: nat)
    requires n <= |ks|
    ensures MaxLen(ks) == MaxLenTo(ks, n) + MaxLen(ks[n..])
    decreases n
  {
    if n == 0 {
      assert ks[0..] == ks;
    } else {
      MaxLenSplits(ks, n - 1);
      assert ks[n - 1..][0] == ks[n - 1] && ks[n - 1..][1..] == ks[n..];
    }
  }

  lemma {:induction false} MaxLenConcat(ks: seq<Kind>, ls: seq<Kind>)
    ensures MaxLen(ks + ls) == MaxLen(ks) + MaxLen(ls)
  {
    if ks == [] {
      assert ks + ls == ls;
    } else {
      assert (ks + ls)[1..] == ks[1..] + ls;
      MaxLenConcat(ks[1..], ls);
    }
  }

  lemma {:induction false} WriteFits(ks: seq<Kind>, vs: seq<Value>, rest: Bytes)
    requires AllFit(ks, vs)
    ensures |Write(ks, vs, rest)| <= MaxLen(ks) + |rest|
    decreases ks, 1
  {
    if ks != [] {
      WriteFits(ks[1..], vs[1..], rest);
      WriteFieldFits(ks[0], vs[0], Write(ks[1..], vs[1..], rest));
    }
  }

  lemma WriteFieldFits(k: Kind, v: Value, rest: Bytes)
    requires Fits(k, v)
    ensures |WriteField(k, v, rest)| <= MaxFieldLen(k) + |rest|
    decreases k, 0
  {
    if k.List? {
      WriteManyFits(k.elem, v.items, rest);
      MulMonotone(|v.items|, k.cap, MaxLen(k.elem));
    }
  }

  lemma MulMonotone(a: nat, b: nat, c: nat)
    requires a <= b
    ensures a * c <= b * c
  {
  }

  lemma OneMore(a: int, c: int)
    ensures a * c == (a - 1) * c + c
  {
  }

  lemma {:induction false} WriteManyFits(elem: seq<Kind>, items: seq<seq<Value>>, rest: Bytes)
    requires ManyFit(elem, items)
    ensures |WriteMany(elem, items, rest)| <= |items| * MaxLen(elem) + |rest|
    decreases elem, 2, |items|
  {
    if items != [] {
      WriteManyFits(elem, items[1..], rest);
      WriteFits(elem, items[0], WriteMany(elem, items[1..], rest));
      OneMore(|items|, MaxLen(elem));
    }
  }

  /** A shape without tags or lists has one length. */
  lemma {:induction false} FixedWidth(ks: seq<Kind>, vs: seq<Value>, rest: Bytes)
    requires AllFit(ks, vs) && forall i :: 0 <= i < |ks| ==> !ks[i].Tag? && !ks[i].List?
    ensures |Write(ks, vs, rest)| == MaxLen(ks) + |rest|
    decreases |ks|
  {
    if ks != [] {
      FixedWidth(ks[1..], vs[1..], rest);
    }
  }
}
