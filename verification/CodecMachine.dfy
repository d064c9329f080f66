/** The stateful writer and reader, proved against the record format of `Codec`.
    The source's debug assertions on its own state are the `requires` clauses here; the ones
    that depend on the bytes read are reported as faults when `debug` is set. */
module CodecMachine {
  import opened Bytes
  import opened Codec
  import opened CodecTheorems

  class Serializer {
    var out: seq<byte>
    var depth: nat
    var sep: bool
    var fin: bool

    constructor ()
      ensures out == [] && depth == 0 && !sep && !fin
    {
      out, depth, sep, fin := [], 0, false, false;
    }

    method TupleStart()
      requires !sep && !fin
      modifies this`depth
      ensures depth == old(depth) + 1
    {
      depth := depth + 1;
    }

    method TupleEnd()
      modifies this`depth
      ensures depth == if old(depth) > 0 then old(depth) - 1 else 0
    {
      depth := if depth > 0 then depth - 1 else 0;
    }

    method RecordStart()
      requires !fin
      modifies this`sep, this`out
      ensures sep
      ensures out == old(out) + (if old(sep) then [SEP] else [])
    {
      var had := sep;
      sep := true;
      if had {
        WriteSeparator();
      }
    }

    method WriteSeparator()
      requires !fin
      modifies this`out
      ensures out == old(out) + [SEP]
    {
      out := out + [SEP];
    }

    method SetFinalized()
      requires !fin
      modifies this`fin
      ensures fin
    {
      fin := true;
    }

    /** One element, dispatched on the data model; strings and slices only inside a tuple. */
    method SerializeValue(v: Val)
      requires Writable(v) && !fin && depth > 0
      modifies this`out, this`fin
      ensures out == old(out) + Payload(v)
      ensures fin == Finalizes(v)
      decreases v
    {
      match v
      case Str(text) => out := out + text;
      case U64(n) => out := out + BigEndian(n, 8);
      case I64(i) => out := out + BigEndian(i % TWO64, 8);
      case Raw(bytes) => out := out + bytes;
      case Nothing =>
      case Just(inner) => SerializeValue(inner);
      case Interfix => SetFinalized();
      case Separator => WriteSeparator();
    }

    method SerializeTuple(vals: seq<Val>)
      requires forall i :: 0 <= i < |vals| ==> Writable(vals[i])
      requires forall i :: 0 <= i < |vals| - 1 ==> !Finalizes(vals[i])
      requires !sep && !fin
      modifies this
      ensures out == old(out) + Encode(vals)
      ensures depth == old(depth)
    {
      TupleStart();
      var i := 0;
      while i < |vals|
        invariant 0 <= i <= |vals|
        invariant out == old(out) + Encode(vals[..i])
        invariant sep == (i > 0)
        invariant fin == (i > 0 && Finalizes(vals[i - 1]))
        invariant depth == old(depth) + 1
      {
        RecordStart();
        SerializeValue(vals[i]);
        assert vals[..i + 1] == vals[..i] + [vals[i]];
        EncodeSnoc(vals[..i], vals[i]);
        i := i + 1;
      }
      assert vals[..|vals|] == vals;
      TupleEnd();
    }
  }

  method SerializeToVec(vals: seq<Val>) returns (out: seq<byte>)
    requires forall i :: 0 <= i < |vals| ==> Writable(vals[i])
    requires forall i :: 0 <= i < |vals| - 1 ==> !Finalizes(vals[i])
    ensures out == Encode(vals)
  {
    var s := new Serializer();
    s.SerializeTuple(vals);
    out := s.out;
  }

  /** What reading yields once the elements `vals` have been collected. */
  ghost function Prepend(vals: seq<Val>, r: Result<Reads>): Result<Reads> {
    if r.Err? then r else Ok(Reads(vals + r.value.vals, r.value.pos))
  }

  lemma PrependNothing(r: Result<Reads>)
    ensures Prepend([], r) == r
  {
    assert r.Ok? ==> [] + r.value.vals == r.value.vals;
  }

  lemma PrependStep(vals: seq<Val>, debug: bool, kinds: seq<Kind>, buf: seq<byte>, pos: nat, rec: nat)
    requires kinds != [] && pos <= |buf|
    ensures match ReadElement(debug, kinds[0], buf, pos, rec)
            case Err(f) => Prepend(vals, ReadTuple(debug, kinds, buf, pos, rec)) == Err(f)
            case Ok(w) =>
              Prepend(vals, ReadTuple(debug, kinds, buf, pos, rec))
              == Prepend(vals + [w.val], ReadTuple(debug, kinds[1..], buf, w.pos, rec + 1))
  {
    hide ReadElement;
    var first := ReadElement(debug, kinds[0], buf, pos, rec);
    if first.Ok? {
      var rest := ReadTuple(debug, kinds[1..], buf, first.value.pos, rec + 1);
      if rest.Ok? {
        assert vals + ([first.value.val] + rest.value.vals) == (vals + [first.value.val]) + rest.value.vals;
      }
    }
  }

  class Deserializer {
    const buf: seq<byte>
    const debug: bool
    var pos: nat
    var rec: nat
    var inTuple: bool

    ghost predicate Valid()
      reads this
    {
      pos <= |buf|
    }

    constructor (buf: seq<byte>, debug: bool)
      ensures Valid() && this.buf == buf && this.debug == debug
      ensures pos == 0 && rec == 0 && !inTuple
    {
      this.buf, this.debug := buf, debug;
      pos, rec, inTuple := 0, 0, false;
    }

    method SequenceStart()
      requires !inTuple
      modifies this`inTuple
      ensures inTuple
    {
      inTuple := true;
    }

    /** Consumes the current record and stops in front of its separator. */
    method RecordNext() returns (record: seq<byte>)
      requires Valid()
      modifies this`pos
      ensures Valid() && pos == NextSep(buf, old(pos)) && record == buf[old(pos)..pos]
    {
      var e := pos;
      while e < |buf| && buf[e] != SEP
        invariant pos <= e <= |buf|
        invariant NextSep(buf, pos) == NextSep(buf, e)
      {
        e := e + 1;
      }
      record := buf[pos..e];
      pos := pos + |record|;
    }

    method RecordTrail() returns (record: seq<byte>)
      requires Valid()
      modifies this`pos
      ensures Valid() && pos == |buf| && record == buf[old(pos)..]
    {
      record := buf[pos..];
      pos := pos + |record|;
    }

    /** Skips one record inside a tuple, everything at the top level. */
    method RecordIgnore()
      requires Valid()
      modifies this`pos
      ensures Valid() && pos == if inTuple then NextSep(buf, old(pos)) else |buf|
    {
      if inTuple {
        var _ := RecordNext();
      } else {
        var _ := RecordTrail();
      }
    }

    /** Steps over the separator in front of every record but the first. */
    method RecordStart() returns (ok: bool)
      requires Valid() && pos < |buf|
      modifies this`pos, this`rec
      ensures Valid() && pos == RecordPos(old(pos), old(rec)) && rec == old(rec) + 1
      ensures ok == !(debug && pos > old(pos) && buf[old(pos)] != SEP)
    {
      var started := pos != 0 || rec > 0;
      ok := !(debug && started && buf[pos] != SEP);
      pos := pos + (if started then 1 else 0);
      rec := rec + 1;
    }

    method ReadWord() returns (r: Result<nat>)
      requires Valid()
      modifies this`pos
      ensures Valid()
      ensures old(pos) + 8 <= |buf| ==> r == Ok(FromBigEndian(buf[old(pos)..old(pos) + 8])) && pos == old(pos) + 8
      ensures old(pos) + 8 > |buf| ==> r == Err(Underflow)
    {
      var end := if pos + 8 <= |buf| then pos + 8 else |buf|;
      var bytes := buf[pos..end];
      if |bytes| < 8 {
        return Err(Underflow);
      }
      pos := pos + 8;
      r := Ok(FromBigEndian(bytes));
    }

    method DeserializeValue(k: Kind) returns (r: Result<Val>)
      requires Valid()
      modifies this`pos
      ensures Valid()
      ensures match ReadVal(inTuple, k, buf, old(pos))
              case Ok(w) => r == Ok(w.val) && pos == w.pos
              case Err(f) => r == Err(f)
      decreases k
    {
      match k
      case KStr =>
        var record := RecordNext();
        r := if ValidUtf8(record) then Ok(Str(record)) else Err(BadUtf8);
      case KU64 =>
        var w := ReadWord();
        r := if w.Ok? then Ok(U64(w.value)) else Err(w.fault);
      case KI64 =>
        var w := ReadWord();
        r := if w.Ok? then Ok(I64(ToSigned(w.value))) else Err(w.fault);
      case KRaw =>
        var record := RecordTrail();
        r := Ok(Raw(record));
      case KOpt(inner) =>
        if pos == |buf| || buf[pos] == SEP {
          r := Ok(Nothing);
        } else {
          var w := DeserializeValue(inner);
          r := if w.Ok? then Ok(Just(w.value)) else w;
        }
      case KIgnore =>
        RecordIgnore();
        r := Ok(Skipped);
      case KIgnoreAll =>
        var _ := RecordTrail();
        r := Ok(Skipped);
    }

    method NextElement(k: Kind) returns (r: Result<Val>)
      requires Valid() && inTuple
      modifies this`pos, this`rec
      ensures Valid()
      ensures match ReadElement(debug, k, buf, old(pos), old(rec))
              case Ok(w) => r == Ok(w.val) && pos == w.pos && rec == old(rec) + 1
              case Err(f) => r == Err(f)
    {
      if pos >= |buf| {
        return Err(WrongLength);
      }
      var ok := RecordStart();
      if !ok {
        return Err(MissingSeparator);
      }
      r := DeserializeValue(k);
    }

    method DeserializeTuple(kinds: seq<Kind>) returns (r: Result<seq<Val>>)
      requires Valid() && !inTuple
      modifies this
      ensures Valid()
      ensures match ReadTuple(debug, kinds, buf, old(pos), old(rec))
              case Ok(w) => r == Ok(w.vals) && pos == w.pos
              case Err(f) => r == Err(f)
    {
      SequenceStart();
      var vals: seq<Val>, i := [], 0;
      ghost var whole := ReadTuple(debug, kinds, buf, pos, rec);
      assert kinds[0..] == kinds;
      PrependNothing(whole);
      while i < |kinds|
        invariant Valid() && inTuple && 0 <= i <= |kinds| && |vals| == i
        invariant whole == Prepend(vals, ReadTuple(debug, kinds[i..], buf, pos, rec))
      {
        hide ReadElement, ReadTuple, Prepend;
        PrependStep(vals, debug, kinds[i..], buf, pos, rec);
        assert kinds[i..][1..] == kinds[i + 1..];
        var v := NextElement(kinds[i]);
        if v.Err? {
          return Err(v.fault);
        }
        vals := vals + [v.value];
        i := i + 1;
      }
      assert kinds[i..] == [] && vals + [] == vals;
      r := Ok(vals);
    }

    predicate IsFinished()
      requires Valid()
      reads this
      ensures IsFinished() <==> Finished(buf, pos)
    {
      var remain := |buf| - pos;
      remain == 0 || (remain == 1 && buf[pos..][0] == SEP)
    }
  }

  method Deserialize(debug: bool, kinds: seq<Kind>, buf: seq<byte>) returns (r: Result<seq<Val>>)
    ensures r == FromSlice(debug, kinds, buf)
  {
    var d := new Deserializer(buf, debug);
    r := d.DeserializeTuple(kinds);
    if r.Ok? && debug && !d.IsFinished() {
      r := Err(Unfinished);
    }
  }

  /** The running codec: writing a tuple and reading it again gives the same tuple exactly when
      it is `Decodable`. */
  method WriteThenRead(debug: bool, vals: seq<Val>, kinds: seq<Kind>) returns (r: Result<seq<Val>>)
    requires HasKinds(vals, kinds)
    ensures r == Ok(vals) <==> Decodable(vals)
  {
    forall i | 0 <= i < |vals|
      ensures Writable(vals[i]) && !Finalizes(vals[i])
    {
      TypedIsWritable(vals[i], kinds[i]);
    }
    var bytes := SerializeToVec(vals);
    r := Deserialize(debug, kinds, bytes);
    RoundTrip(debug, vals, kinds);
  }

  lemma {:induction false} TypedIsWritable(v: Val, k: Kind)
    requires HasKind(v, k)
    ensures Writable(v) && !Finalizes(v)
  {
    if v.Just? {
      TypedIsWritable(v.inner, k.inner);
    }
  }
}
