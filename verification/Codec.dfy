/** The record format: what the serializer writes and what the deserializer reads. */
module Codec {
  import opened Bytes

  // -------------------------------------------------------------------- values

  /** The part of the serde data model that the database codec handles.
      `Interfix` and `Separator` are written only, `Skipped` is read only. */
  datatype Val =
    | Str(text: seq<byte>)
    | U64(n: int)
    | I64(i: int)
    | Raw(bytes: seq<byte>)
    | Nothing
    | Just(inner: Val)
    | Interfix
    | Separator
    | Skipped

  /** What a caller asks the deserializer for. */
  datatype Kind = KStr | KU64 | KI64 | KRaw | KOpt(inner: Kind) | KIgnore | KIgnoreAll

  const TWO63: int := 0x8000_0000_0000_0000
  const TWO64: int := 0x1_0000_0000_0000_0000

  /** `v` is a value of the Rust type that `k` stands for. */
  predicate HasKind(v: Val, k: Kind) {
    match k
    case KStr => v.Str? && ValidUtf8(v.text)
    case KU64 => v.U64? && 0 <= v.n < TWO64
    case KI64 => v.I64? && -TWO63 <= v.i < TWO63
    case KRaw => v.Raw?
    case KOpt(inner) => v.Nothing? || (v.Just? && HasKind(v.inner, inner))
    case KIgnore => false
    case KIgnoreAll => false
  }

  predicate HasKinds(vals: seq<Val>, kinds: seq<Kind>) {
    |vals| == |kinds| && forall i :: 0 <= i < |vals| ==> HasKind(vals[i], kinds[i])
  }

  // -------------------------------------------------------------------- writing

  /** Values the serializer accepts. */
  predicate Writable(v: Val) {
    match v
    case Str(t) => ValidUtf8(t)
    case U64(n) => 0 <= n < TWO64
    case I64(i) => -TWO63 <= i < TWO63
    case Just(w) => Writable(w)
    case Skipped => false
    case _ => true
  }

  /** `v` carries the directive after which nothing may be written. */
  predicate Finalizes(v: Val) {
    v.Interfix? || (v.Just? && Finalizes(v.inner))
  }

  /** The bytes of one record, without separators. */
  function Payload(v: Val): (s: seq<byte>) {
    match v
    case Str(t) => t
    case U64(n) => if n < 0 then [] else BigEndian(n, 8)
    case I64(i) => BigEndian(i % TWO64, 8)
    case Raw(b) => b
    case Just(w) => Payload(w)
    case Separator => [SEP]
    case Nothing => []
    case Interfix => []
    case Skipped => []
  }

  /** A tuple is the sequence of its records joined by the separator. */
  function Encode(vals: seq<Val>): (s: seq<byte>) {
    if |vals| == 0 then []
    else if |vals| == 1 then Payload(vals[0])
    else Payload(vals[0]) + [SEP] + Encode(vals[1..])
  }

  /** The key used to iterate over the rows that begin with `vals`. */
  function PrefixKey(vals: seq<Val>): (s: seq<byte>) {
    Encode(vals + [Interfix])
  }

  // -------------------------------------------------------------------- reading

  datatype Fault = BadUtf8 | Underflow | WrongLength | MissingSeparator | Unfinished

  datatype Result<T> = Ok(value: T) | Err(fault: Fault)

  datatype Read = Read(val: Val, pos: nat)
  datatype Reads = Reads(vals: seq<Val>, pos: nat)

  /** Position of the next separator, or the end of the buffer. */
  function NextSep(buf: seq<byte>, pos: nat): (e: nat)
    requires pos <= |buf|
    ensures pos <= e <= |buf| && SEP !in buf[pos..e]
    ensures e == |buf| || buf[e] == SEP
    decreases |buf| - pos
  {
    if pos == |buf| || buf[pos] == SEP then pos
    else
      var e := NextSep(buf, pos + 1);
      assert buf[pos..e] == [buf[pos]] + buf[pos + 1..e];
      e
  }

  function ToSigned(n: nat): int {
    if n < TWO63 then n else n - TWO64
  }

  /** Reads one record of kind `k` at `pos`; `inTuple` tells a nested `Ignore` from a top-level one. */
  function ReadVal(inTuple: bool, k: Kind, buf: seq<byte>, pos: nat): (r: Result<Read>)
    requires pos <= |buf|
    ensures r.Ok? ==> pos <= r.value.pos <= |buf|
  {
    match k
    case KStr =>
      var e := NextSep(buf, pos);
      if ValidUtf8(buf[pos..e]) then Ok(Read(Str(buf[pos..e]), e)) else Err(BadUtf8)
    case KU64 =>
      if pos + 8 <= |buf| then Ok(Read(U64(FromBigEndian(buf[pos..pos + 8])), pos + 8)) else Err(Underflow)
    case KI64 =>
      if pos + 8 <= |buf| then Ok(Read(I64(ToSigned(FromBigEndian(buf[pos..pos + 8]))), pos + 8)) else Err(Underflow)
    case KRaw => Ok(Read(Raw(buf[pos..]), |buf|))
    case KOpt(inner) =>
      if pos == |buf| || buf[pos] == SEP then Ok(Read(Nothing, pos))
      else (
        match ReadVal(inTuple, inner, buf, pos)
        case Ok(w) => Ok(Read(Just(w.val), w.pos))
        case Err(f) => Err(f)
      )
    case KIgnore => Ok(Read(Skipped, if inTuple then NextSep(buf, pos) else |buf|))
    case KIgnoreAll => Ok(Read(Skipped, |buf|))
  }

  /** Where the next record starts: behind its separator, unless it is the very first record. */
  function RecordPos(pos: nat, rec: nat): nat {
    if pos != 0 || rec > 0 then pos + 1 else pos
  }

  /** Reads the next tuple element. `debug` turns the source's debug assertions on. */
  function ReadElement(debug: bool, k: Kind, buf: seq<byte>, pos: nat, rec: nat): (r: Result<Read>)
    requires pos <= |buf|
    ensures r.Ok? ==> pos <= r.value.pos <= |buf|
  {
    if pos == |buf| then Err(WrongLength)
    else if debug && RecordPos(pos, rec) > pos && buf[pos] != SEP then Err(MissingSeparator)
    else ReadVal(true, k, buf, RecordPos(pos, rec))
  }

  /** Reads the remaining tuple elements. */
  function ReadTuple(debug: bool, kinds: seq<Kind>, buf: seq<byte>, pos: nat, rec: nat): (r: Result<Reads>)
    requires pos <= |buf|
    ensures r.Ok? ==> pos <= r.value.pos <= |buf| && |r.value.vals| == |kinds|
    decreases |kinds|
  {
    if kinds == [] then Ok(Reads([], pos))
    else
      var first := ReadElement(debug, kinds[0], buf, pos, rec);
      if first.Err? then Err(first.fault)
      else
        var rest := ReadTuple(debug, kinds[1..], buf, first.value.pos, rec + 1);
        if rest.Err? then rest else Ok(Reads([first.value.val] + rest.value.vals, rest.value.pos))
  }

  /** Everything was consumed, apart from at most one separator. */
  predicate Finished(buf: seq<byte>, pos: nat)
    requires pos <= |buf|
  {
    pos == |buf| || (pos + 1 == |buf| && buf[pos] == SEP)
  }

  function FromSlice(debug: bool, kinds: seq<Kind>, buf: seq<byte>): (r: Result<seq<Val>>) {
    match ReadTuple(debug, kinds, buf, 0, 0)
    case Err(f) => Err(f)
    case Ok(all) => if debug && !Finished(buf, all.pos) then Err(Unfinished) else Ok(all.vals)
  }

  // -------------------------------------------------- the shape of an encoding

  lemma WordRange()
    ensures Pow256(8) == TWO64
  {
    assert Pow256(4) == 0x1_0000_0000;
    assert Pow256(6) == 0x1_0000_0000_0000;
  }

  lemma {:induction false} EncodeSnoc(vals: seq<Val>, v: Val)
    ensures Encode(vals + [v]) == Encode(vals) + (if vals == [] then [] else [SEP]) + Payload(v)
  {
    if |vals| > 0 {
      assert (vals + [v])[1..] == vals[1..] + [v];
      EncodeSnoc(vals[1..], v);
    }
  }

  lemma {:induction false} EncodeAppend(a: seq<Val>, b: seq<Val>)
    requires a != [] && b != []
    ensures Encode(a + b) == Encode(a) + [SEP] + Encode(b)
  {
    assert (a + b)[1..] == a[1..] + b;
    if |a| == 1 {
      assert (a + b)[1..] == b;
    } else {
      EncodeAppend(a[1..], b);
    }
  }

  /** The `Separator` directive is a record that holds a separator. */
  lemma SeparatorBytes(vals: seq<Val>)
    ensures Encode(vals + [Separator]) == Encode(vals) + (if vals == [] then [SEP] else [SEP, SEP])
  {
    EncodeSnoc(vals, Separator);
  }

  /** A prefix key is the leading records, each one closed by a separator. */
  lemma PrefixKeyBytes(vals: seq<Val>)
    ensures PrefixKey(vals) == Encode(vals) + (if vals == [] then [] else [SEP])
  {
    EncodeSnoc(vals, Interfix);
  }
}
