/** Which buffers the deserializer accepts, with and without the source's debug assertions. */
module CodecAcceptance {
  import opened Bytes
  import opened Codec
  import opened CodecTheorems

  predicate ValueKind(k: Kind) {
    match k
    case KIgnore => false
    case KIgnoreAll => false
    case KOpt(inner) => ValueKind(inner)
    case _ => true
  }

  predicate ValueKinds(kinds: seq<Kind>) {
    forall i :: 0 <= i < |kinds| ==> ValueKind(kinds[i])
  }

  /** The buffer is the encoding, or the encoding and one more separator. */
  predicate Canonical(buf: seq<byte>, vals: seq<Val>) {
    buf == Encode(vals) || buf == Encode(vals) + [SEP]
  }

  predicate LastHoldsRaw(vals: seq<Val>) {
    vals != [] && HoldsRaw(vals[|vals| - 1])
  }

  // ------------------------------------------------------------------- one record

  lemma {:induction false} RecordIsPayload(k: Kind, buf: seq<byte>, pos: nat)
    requires ValueKind(k) && pos <= |buf| && ReadVal(true, k, buf, pos).Ok?
    ensures var r := ReadVal(true, k, buf, pos).value;
            HasKind(r.val, k) && Visible(r.val) && Payload(r.val) == buf[pos..r.pos]
  {
    WordRange();
    match k
    case KU64 =>
      FromBigEndianInverse(buf[pos..pos + 8]);
    case KI64 =>
      FromBigEndianInverse(buf[pos..pos + 8]);
      var n := FromBigEndian(buf[pos..pos + 8]);
      assert ToSigned(n) % TWO64 == n;
    case KOpt(inner) =>
      if pos < |buf| && buf[pos] != SEP {
        RecordIsPayload(inner, buf, pos);
        ReadProgress(inner, buf, pos);
      }
    case _ =>
  }

  /** A record that does not start with a separator is not read as empty. */
  lemma {:induction false} ReadProgress(k: Kind, buf: seq<byte>, pos: nat)
    requires ValueKind(k) && pos < |buf| && buf[pos] != SEP && ReadVal(true, k, buf, pos).Ok?
    ensures pos < ReadVal(true, k, buf, pos).value.pos
  {
    match k
    case KOpt(inner) => ReadProgress(inner, buf, pos);
    case _ =>
  }

  lemma {:induction false} RawReadsAll(k: Kind, buf: seq<byte>, pos: nat)
    requires ValueKind(k) && pos <= |buf| && ReadVal(true, k, buf, pos).Ok?
    ensures HoldsRaw(ReadVal(true, k, buf, pos).value.val) ==> ReadVal(true, k, buf, pos).value.pos == |buf|
  {
    if k.KOpt? && pos < |buf| && buf[pos] != SEP {
      RawReadsAll(k.inner, buf, pos);
    }
  }

  // ------------------------------------------------------------------- whole tuples

  /** One element of a successful read: its place, its record, and the rest. */
  lemma FirstOfTuple(debug: bool, kinds: seq<Kind>, buf: seq<byte>, pos: nat, rec: nat)
      returns (p: nat, first: Read, rest: Reads)
    requires kinds != [] && pos <= |buf| && ReadTuple(debug, kinds, buf, pos, rec).Ok?
    ensures p == RecordPos(pos, rec) && pos < |buf| && (debug && p > pos ==> buf[pos] == SEP)
    ensures p <= |buf| && ReadVal(true, kinds[0], buf, p) == Ok(first)
    ensures p <= first.pos <= |buf| && ReadTuple(debug, kinds[1..], buf, first.pos, rec + 1) == Ok(rest)
    ensures ReadTuple(debug, kinds, buf, pos, rec) == Ok(Reads([first.val] + rest.vals, rest.pos))
  {
    p := RecordPos(pos, rec);
    first := ReadVal(true, kinds[0], buf, p).value;
    rest := ReadTuple(debug, kinds[1..], buf, first.pos, rec + 1).value;
  }

  lemma ConsShape(v: Val, rest: seq<Val>)
    ensures rest == [] ==> Encode([v] + rest) == Payload(v) && (Readable([v] + rest) <==> Visible(v))
    ensures rest != [] ==> Encode([v] + rest) == Payload(v) + [SEP] + Encode(rest)
    ensures rest != [] ==> (Readable([v] + rest) <==> Visible(v) && !HoldsRaw(v) && Readable(rest))
  {
    assert ([v] + rest)[1..] == rest;
  }

  /** What any reader returns is a readable tuple of the schema, as long as the bytes it consumed;
      the checked reader consumed exactly its encoding. */
  lemma {:induction false} TupleIsEncoding(debug: bool, kinds: seq<Kind>, buf: seq<byte>, pos: nat, rec: nat)
    requires kinds != [] && ValueKinds(kinds) && pos <= |buf| && ReadTuple(debug, kinds, buf, pos, rec).Ok?
    ensures var r := ReadTuple(debug, kinds, buf, pos, rec).value;
            var p := RecordPos(pos, rec);
            && pos < |buf| && HasKinds(r.vals, kinds) && Readable(r.vals)
            && p <= r.pos <= |buf| && |Encode(r.vals)| == r.pos - p
            && (LastHoldsRaw(r.vals) ==> r.pos == |buf|)
            && (debug ==> buf[p..r.pos] == Encode(r.vals))
    decreases |kinds|
  {
    hide ReadElement, ReadVal, ReadTuple, Payload, HasKind, ValueKind, Visible, HoldsRaw, Encode, Readable;
    var p, first, rest := FirstOfTuple(debug, kinds, buf, pos, rec);
    RecordIsPayload(kinds[0], buf, p);
    RawReadsAll(kinds[0], buf, p);
    ConsShape(first.val, rest.vals);
    var vals := [first.val] + rest.vals;
    if |kinds| == 1 {
      EmptyTuple(debug, kinds[1..], buf, first.pos, rec + 1);
      assert vals == [first.val];
    } else {
      TupleIsEncoding(debug, kinds[1..], buf, first.pos, rec + 1);
      var _, _, _ := FirstOfTuple(debug, kinds[1..], buf, first.pos, rec + 1);
      assert buf[p..rest.pos] == buf[p..first.pos] + [buf[first.pos]] + buf[first.pos + 1..rest.pos];
      assert forall i :: 1 <= i < |kinds| ==> kinds[i] == kinds[1..][i - 1];
    }
  }

  /** Reading a longer schema is reading its front and going on where that stopped. */
  lemma {:induction false} TupleSplit(debug: bool, a: seq<Kind>, b: seq<Kind>, buf: seq<byte>, pos: nat, rec: nat)
    requires pos <= |buf|
    ensures match ReadTuple(debug, a, buf, pos, rec)
            case Err(f) => ReadTuple(debug, a + b, buf, pos, rec) == Err(f)
            case Ok(r) =>
              match ReadTuple(debug, b, buf, r.pos, rec + |a|)
              case Err(f) => ReadTuple(debug, a + b, buf, pos, rec) == Err(f)
              case Ok(t) => ReadTuple(debug, a + b, buf, pos, rec) == Ok(Reads(r.vals + t.vals, t.pos))
    decreases |a|
  {
    hide ReadElement, ReadTuple;
    if a == [] {
      assert a + b == b;
      EmptyTuple(debug, a, buf, pos, rec);
      var t := ReadTuple(debug, b, buf, pos, rec);
      assert t.Ok? ==> [] + t.value.vals == t.value.vals;
    } else {
      assert (a + b)[1..] == a[1..] + b && (a + b)[0] == a[0];
      TupleStep(debug, a, buf, pos, rec);
      TupleStep(debug, a + b, buf, pos, rec);
      var first := ReadElement(debug, a[0], buf, pos, rec);
      if first.Ok? {
        TupleSplit(debug, a[1..], b, buf, first.value.pos, rec + 1);
        var r := ReadTuple(debug, a[1..], buf, first.value.pos, rec + 1);
        if r.Ok? {
          var t := ReadTuple(debug, b, buf, r.value.pos, rec + |a|);
          assert t.Ok? ==> [first.value.val] + (r.value.vals + t.value.vals) == ([first.value.val] + r.value.vals) + t.value.vals;
        }
      }
    }
  }

  // ---------------------------------------------------- the language of the checked reader

  lemma {:induction false} ReadableSnoc(vals: seq<Val>, v: Val)
    requires Readable(vals) && !LastHoldsRaw(vals) && Visible(v)
    ensures Readable(vals + [v])
  {
    if vals != [] {
      assert (vals + [v])[1..] == vals[1..] + [v];
      ReadableSnoc(vals[1..], v);
    }
  }

  /** Reading a tuple that is followed by one more record stops in front of that record. */
  lemma ReadFront(debug: bool, kinds: seq<Kind>, vals: seq<Val>, k: Kind, x: Val) returns (pos: nat)
    requires HasKinds(vals, kinds) && Readable(vals) && vals != [] && !LastHoldsRaw(vals)
    requires HasKind(x, k) && Visible(x)
    ensures var buf := Encode(vals + [x]);
            && pos <= |buf| && ReadTuple(debug, kinds, buf, 0, 0) == Ok(Reads(vals, pos))
            && ReadTuple(debug, [k], buf, pos, |kinds|) == Ok(Reads([x], |buf|))
  {
    hide Payload, HasKind, ReadTuple, ReadVal, Readable, Visible, HoldsRaw, Encode;
    var buf := Encode(vals + [x]);
    ReadableSnoc(vals, x);
    EncodeSnoc(vals, x);
    TupleReadBack(debug, vals + [x], kinds + [k], buf, 0, 0);
    TupleSplit(debug, kinds, [k], buf, 0, 0);
    var r := ReadTuple(debug, kinds, buf, 0, 0).value;
    pos := r.pos;
    var t := ReadTuple(debug, [k], buf, pos, |kinds|).value;
    assert vals + [x] == r.vals + t.vals && |r.vals| == |vals|;
    assert vals == (vals + [x])[..|vals|] == r.vals;
    assert [x] == (vals + [x])[|vals|..] == t.vals;
  }

  /** A trailing separator is left over by every tuple that does not end in a byte slice. */
  lemma TrailingSeparator(kinds: seq<Kind>, vals: seq<Val>)
    requires HasKinds(vals, kinds) && Readable(vals) && vals != [] && !LastHoldsRaw(vals)
    ensures FromSlice(true, kinds, Encode(vals) + [SEP]) == Ok(vals)
  {
    hide Payload, HasKind, ReadTuple, ReadVal, Readable, Visible, HoldsRaw;
    EmptyString();
    EncodeSnoc(vals, Str([]));
    assert Encode(vals + [Str([])]) == Encode(vals) + [SEP];
    var pos := ReadFront(true, kinds, vals, KStr, Str([]));
    EmptyLast(Encode(vals) + [SEP], pos, |kinds|);
  }

  lemma EmptyString()
    ensures HasKind(Str([]), KStr) && Visible(Str([])) && Payload(Str([])) == []
  {
  }

  lemma EmptyLast(buf: seq<byte>, pos: nat, rec: nat)
    requires pos <= |buf| && rec > 0 && ReadTuple(true, [KStr], buf, pos, rec) == Ok(Reads([Str([])], |buf|))
    ensures Finished(buf, pos)
  {
    var p, first, rest := FirstOfTuple(true, [KStr], buf, pos, rec);
    assert first.val == ([first.val] + rest.vals)[0] == Str([]);
    assert [KStr][1..] == [];
    EmptyTuple(true, [KStr][1..], buf, first.pos, rec + 1);
  }

  /** The checked reader returns `vals` on exactly these buffers: the non-empty encoding of a readable
      tuple of the schema, with one more separator if the tuple does not end in a byte slice. */
  lemma AcceptedExactly(kinds: seq<Kind>, buf: seq<byte>, vals: seq<Val>)
    requires ValueKinds(kinds)
    ensures FromSlice(true, kinds, buf) == Ok(vals) <==>
              && HasKinds(vals, kinds) && Readable(vals) && (vals != [] ==> buf != [])
              && (buf == Encode(vals) || (buf == Encode(vals) + [SEP] && !LastHoldsRaw(vals)))
  {
    if kinds == [] {
      assert Encode([]) == [] && FromSlice(true, kinds, buf) == if |buf| == 0 || buf == [SEP] then Ok([]) else Err(Unfinished);
    } else {
      if FromSlice(true, kinds, buf) == Ok(vals) {
        AcceptedShape(kinds, buf, vals);
      }
      hide ReadTuple, Payload, HasKind, ReadVal;
      if HasKinds(vals, kinds) && Readable(vals) && buf != [] && buf == Encode(vals) {
        TupleReadBack(true, vals, kinds, buf, 0, 0);
      }
      if HasKinds(vals, kinds) && Readable(vals) && buf == Encode(vals) + [SEP] && !LastHoldsRaw(vals) {
        TrailingSeparator(kinds, vals);
      }
    }
  }

  lemma AcceptedShape(kinds: seq<Kind>, buf: seq<byte>, vals: seq<Val>)
    requires kinds != [] && ValueKinds(kinds) && FromSlice(true, kinds, buf) == Ok(vals)
    ensures HasKinds(vals, kinds) && Readable(vals) && buf != []
    ensures buf == Encode(vals) || (buf == Encode(vals) + [SEP] && !LastHoldsRaw(vals))
  {
    hide ReadTuple, HasKind, Encode, Readable;
    TupleIsEncoding(true, kinds, buf, 0, 0);
    var r := ReadTuple(true, kinds, buf, 0, 0).value;
    assert buf == buf[..r.pos] + buf[r.pos..];
  }

  /** In particular what the checked reader accepts is canonical. */
  lemma AcceptedIsCanonical(kinds: seq<Kind>, buf: seq<byte>)
    requires ValueKinds(kinds) && FromSlice(true, kinds, buf).Ok?
    ensures HasKinds(FromSlice(true, kinds, buf).value, kinds) && Canonical(buf, FromSlice(true, kinds, buf).value)
  {
    AcceptedExactly(kinds, buf, FromSlice(true, kinds, buf).value);
  }

  // -------------------------------------------------------------- the unchecked reader

  lemma {:induction false} CheckedAgrees(kinds: seq<Kind>, buf: seq<byte>, pos: nat, rec: nat)
    requires pos <= |buf| && ReadTuple(true, kinds, buf, pos, rec).Ok?
    ensures ReadTuple(false, kinds, buf, pos, rec) == ReadTuple(true, kinds, buf, pos, rec)
    decreases |kinds|
  {
    if kinds != [] {
      hide ReadVal;
      CheckedAgrees(kinds[1..], buf, ReadElement(true, kinds[0], buf, pos, rec).value.pos, rec + 1);
    }
  }

  /** The debug assertions reject exactly the buffers whose unchecked reading is not canonical: a
      wrong byte between two records, or bytes that are left over. */
  lemma CheckedIsCanonicalUnchecked(kinds: seq<Kind>, buf: seq<byte>, vals: seq<Val>)
    requires ValueKinds(kinds)
    ensures FromSlice(true, kinds, buf) == Ok(vals) <==> FromSlice(false, kinds, buf) == Ok(vals) && Canonical(buf, vals)
  {
    hide ReadVal, HasKind, Readable, Encode;
    if FromSlice(true, kinds, buf) == Ok(vals) {
      AcceptedExactly(kinds, buf, vals);
      CheckedAgrees(kinds, buf, 0, 0);
    }
    if FromSlice(false, kinds, buf) == Ok(vals) && Canonical(buf, vals) {
      if kinds != [] {
        TupleIsEncoding(false, kinds, buf, 0, 0);
      } else {
        assert Readable([]) && !LastHoldsRaw([]) by { EmptyReadable(); }
      }
      AcceptedExactly(kinds, buf, vals);
    }
  }

  lemma EmptyReadable()
    ensures Readable([]) && !LastHoldsRaw([])
  {
  }

  /** A fixed-width record: where it ends does not depend on the byte behind it. */
  predicate Fixed(k: Kind) {
    k.KU64? || k.KI64? || (k.KOpt? && Fixed(k.inner))
  }

  predicate FixedInside(kinds: seq<Kind>) {
    |kinds| > 1 && (Fixed(kinds[0]) || FixedInside(kinds[1..]))
  }

  /** A byte slice before the last component leaves nothing to the others: no buffer is accepted. */
  predicate RawInside(kinds: seq<Kind>) {
    |kinds| > 1 && (kinds[0].KRaw? || RawInside(kinds[1..]))
  }

  lemma {:induction false} RawInsideFails(debug: bool, kinds: seq<Kind>, buf: seq<byte>, pos: nat, rec: nat)
    requires RawInside(kinds) && pos <= |buf|
    ensures ReadTuple(debug, kinds, buf, pos, rec).Err?
    decreases |kinds|
  {
    TupleStep(debug, kinds, buf, pos, rec);
    var first := ReadElement(debug, kinds[0], buf, pos, rec);
    if first.Ok? {
      if kinds[0].KRaw? {
        TupleStep(debug, kinds[1..], buf, first.value.pos, rec + 1);
      } else {
        RawInsideFails(debug, kinds[1..], buf, first.value.pos, rec + 1);
      }
    }
  }

  lemma {:induction false} StopsAtSeparator(k: Kind, buf: seq<byte>, pos: nat)
    requires ValueKind(k) && !Fixed(k) && pos <= |buf| && ReadVal(true, k, buf, pos).Ok?
    ensures var e := ReadVal(true, k, buf, pos).value.pos; e == |buf| || buf[e] == SEP
  {
    if k.KOpt? && pos < |buf| && buf[pos] != SEP {
      StopsAtSeparator(k.inner, buf, pos);
    }
  }

  /** Without inner fixed-width components the reader never misses a separator. */
  lemma {:induction false} UncheckedAgrees(kinds: seq<Kind>, buf: seq<byte>, pos: nat, rec: nat)
    requires ValueKinds(kinds) && !FixedInside(kinds) && pos <= |buf|
    requires RecordPos(pos, rec) > pos ==> pos == |buf| || buf[pos] == SEP
    ensures ReadTuple(true, kinds, buf, pos, rec) == ReadTuple(false, kinds, buf, pos, rec)
    decreases |kinds|
  {
    if kinds != [] {
      var first := ReadElement(false, kinds[0], buf, pos, rec);
      assert ReadElement(true, kinds[0], buf, pos, rec) == first;
      hide ReadVal, ReadTuple;
      TupleStep(true, kinds, buf, pos, rec);
      TupleStep(false, kinds, buf, pos, rec);
      if first.Ok? {
        if |kinds| == 1 {
          EmptyTuple(true, kinds[1..], buf, first.value.pos, rec + 1);
          EmptyTuple(false, kinds[1..], buf, first.value.pos, rec + 1);
        } else {
          StopsAtSeparator(kinds[0], buf, RecordPos(pos, rec));
          UncheckedAgrees(kinds[1..], buf, first.value.pos, rec + 1);
        }
      }
    }
  }

  // ------------------------------------------- a misread buffer for every other schema

  /** A value of each kind; options are empty unless they hold a fixed-width record. */
  function Sample(k: Kind): Val {
    match k
    case KStr => Str([])
    case KU64 => U64(0)
    case KI64 => I64(0)
    case KRaw => Raw([])
    case KOpt(inner) => if Fixed(inner) then Just(Sample(inner)) else Nothing
    case _ => Nothing
  }

  function Samples(kinds: seq<Kind>): (vals: seq<Val>)
    ensures |vals| == |kinds|
  {
    if kinds == [] then [] else [Sample(kinds[0])] + Samples(kinds[1..])
  }

  lemma {:induction false} SampleFits(k: Kind)
    requires ValueKind(k)
    ensures HasKind(Sample(k), k) && Visible(Sample(k)) && (HoldsRaw(Sample(k)) <==> k.KRaw?)
    ensures Fixed(k) ==> Payload(Sample(k)) == BigEndian(0, 8)
  {
    assert BigEndian(0, 8)[0] == 0;
    if k.KOpt? {
      SampleFits(k.inner);
    }
  }

  lemma {:induction false} SamplesFit(kinds: seq<Kind>)
    requires ValueKinds(kinds) && !RawInside(kinds)
    ensures HasKinds(Samples(kinds), kinds) && Readable(Samples(kinds))
  {
    if kinds != [] {
      var vals := Samples(kinds);
      hide HasKind, Visible, HoldsRaw, ValueKind;
      SampleFits(kinds[0]);
      SamplesFit(kinds[1..]);
      assert vals[0] == Sample(kinds[0]) && vals[1..] == Samples(kinds[1..]);
      assert forall i :: 1 <= i < |kinds| ==> vals[i] == vals[1..][i - 1] && kinds[i] == kinds[1..][i - 1];
    }
  }

  /** The encoding of `vals` with a zero byte in place of the separator behind component `i`. */
  function Spoiled(vals: seq<Val>, i: nat): seq<byte>
    requires i < |vals| - 1
  {
    if i == 0 then Payload(vals[0]) + [0] + Encode(vals[1..])
    else Payload(vals[0]) + [SEP] + Spoiled(vals[1..], i - 1)
  }

  lemma {:induction false} SpoiledDiffers(vals: seq<Val>, i: nat)
    requires i < |vals| - 1
    ensures |Spoiled(vals, i)| == |Encode(vals)| && Spoiled(vals, i) != Encode(vals)
    decreases i
  {
    var w := Payload(vals[0]);
    if i == 0 {
      assert Spoiled(vals, i)[|w|] != Encode(vals)[|w|];
    } else {
      SpoiledDiffers(vals[1..], i - 1);
      assert Spoiled(vals, i)[|w| + 1..] == Spoiled(vals[1..], i - 1);
      assert Encode(vals)[|w| + 1..] == Encode(vals[1..]);
    }
  }

  lemma {:induction false} FixedReadBack(v: Val, k: Kind, buf: seq<byte>, pos: nat)
    requires HasKind(v, k) && Fixed(k) && Visible(v) && |Payload(v)| == 8
    requires pos + 8 <= |buf| && buf[pos..pos + 8] == Payload(v)
    ensures ReadVal(true, k, buf, pos) == Ok(Read(v, pos + 8))
  {
    hide BigEndian, FromBigEndian, ValidUtf8, NextSep, Pow256;
    match k
    case KU64 => Word(buf, pos, v.n);
    case KI64 => Word(buf, pos, v.i % TWO64);
    case KOpt(inner) =>
      assert buf[pos] == Payload(v)[0];
      FixedReadBack(v.inner, inner, buf, pos);
    case _ =>
  }

  lemma Place(buf: seq<byte>, p: nat, w: seq<byte>, b: byte, tail: seq<byte>)
    requires p <= |buf| && buf[p..] == w + [b] + tail
    ensures p + |w| < |buf| && buf[p..p + |w|] == w && buf[p + |w|] == b && buf[p + |w| + 1..] == tail
  {
    assert buf == buf[..p] + (w + [b] + tail);
  }

  /** The first element of a spoiled buffer is read as if nothing had happened. */
  lemma SpoiledFirst(vals: seq<Val>, k: Kind, buf: seq<byte>, pos: nat, rec: nat, i: nat)
    requires i < |vals| - 1 && HasKind(vals[0], k) && Visible(vals[0]) && !HoldsRaw(vals[0])
    requires i == 0 ==> Fixed(k) && |Payload(vals[0])| == 8
    requires pos < |buf| && RecordPos(pos, rec) <= |buf| && buf[RecordPos(pos, rec)..] == Spoiled(vals, i)
    ensures var q := RecordPos(pos, rec) + |Payload(vals[0])|;
            && ReadElement(false, k, buf, pos, rec) == Ok(Read(vals[0], q)) && q < |buf|
            && buf[q + 1..] == if i == 0 then Encode(vals[1..]) else Spoiled(vals[1..], i - 1)
  {
    var (p, w) := (RecordPos(pos, rec), Payload(vals[0]));
    var tail := if i == 0 then Encode(vals[1..]) else Spoiled(vals[1..], i - 1);
    var b: byte := if i == 0 then 0 else SEP;
    assert buf[p..] == w + [b] + tail;
    hide Spoiled, Encode, ReadVal, HasKind, Visible, HoldsRaw, RecordPos;
    Place(buf, p, w, b, tail);
    if i == 0 {
      FixedReadBack(vals[0], k, buf, p);
    } else {
      RecordReadBack(vals[0], k, buf, p);
    }
  }

  lemma {:induction false} SpoiledReads(vals: seq<Val>, kinds: seq<Kind>, buf: seq<byte>, pos: nat, rec: nat, i: nat)
    requires i < |vals| - 1 && HasKinds(vals, kinds) && Readable(vals)
    requires Fixed(kinds[i]) && |Payload(vals[i])| == 8
    requires pos < |buf| && RecordPos(pos, rec) <= |buf| && buf[RecordPos(pos, rec)..] == Spoiled(vals, i)
    ensures ReadTuple(false, kinds, buf, pos, rec) == Ok(Reads(vals, |buf|))
    decreases i
  {
    hide ReadElement, ReadTuple, Payload, HasKind, Encode, Spoiled, Visible, HoldsRaw;
    SpoiledFirst(vals, kinds[0], buf, pos, rec, i);
    TupleStep(false, kinds, buf, pos, rec);
    var q := RecordPos(pos, rec) + |Payload(vals[0])|;
    assert vals == [vals[0]] + vals[1..];
    if i == 0 {
      TupleReadBack(false, vals[1..], kinds[1..], buf, q, rec + 1);
    } else {
      SpoiledReads(vals[1..], kinds[1..], buf, q, rec + 1, i - 1);
    }
  }

  /** Every byte the unchecked reader consumed belongs to the encoding of what it returned. */
  ghost predicate Faithful(kinds: seq<Kind>, buf: seq<byte>) {
    var r := ReadTuple(false, kinds, buf, 0, 0);
    r.Ok? ==> buf[..r.value.pos] == Encode(r.value.vals)
  }

  lemma {:induction false} FirstFixed(kinds: seq<Kind>) returns (i: nat)
    requires FixedInside(kinds)
    ensures i < |kinds| - 1 && Fixed(kinds[i])
  {
    if Fixed(kinds[0]) {
      i := 0;
    } else {
      i := FirstFixed(kinds[1..]);
      i := i + 1;
    }
  }

  lemma {:induction false} SampleAt(kinds: seq<Kind>, i: nat)
    requires i < |kinds|
    ensures Samples(kinds)[i] == Sample(kinds[i])
  {
    if i > 0 {
      SampleAt(kinds[1..], i - 1);
    }
  }

  /** A buffer that the unchecked reader takes although it is no encoding. */
  lemma Misread(kinds: seq<Kind>) returns (buf: seq<byte>)
    requires ValueKinds(kinds) && FixedInside(kinds) && !RawInside(kinds)
    ensures !Faithful(kinds, buf)
  {
    var i := FirstFixed(kinds);
    var vals := Samples(kinds);
    SampleAt(kinds, i);
    SampleFits(kinds[i]);
    SamplesFit(kinds);
    buf := Spoiled(vals, i);
    SpoiledDiffers(vals, i);
    assert buf[0..] == buf && buf[..|buf|] == buf;
    assert |buf| > 0;
    hide ReadTuple, Spoiled, Samples, Sample, Readable, Encode;
    SpoiledReads(vals, kinds, buf, 0, 0, i);
  }

  /** The unchecked reader is faithful on every buffer if and only if no fixed-width component stands
      in front of another one, or a byte slice does and nothing is accepted at all. */
  lemma UncheckedFaithfulExactly(kinds: seq<Kind>)
    requires ValueKinds(kinds)
    ensures (forall buf :: Faithful(kinds, buf)) <==> RawInside(kinds) || !FixedInside(kinds)
  {
    if RawInside(kinds) || !FixedInside(kinds) {
      forall buf: seq<byte>
        ensures Faithful(kinds, buf)
      {
        FaithfulRead(kinds, buf);
      }
    } else {
      var buf := Misread(kinds);
    }
  }

  lemma FaithfulRead(kinds: seq<Kind>, buf: seq<byte>)
    requires ValueKinds(kinds) && (RawInside(kinds) || !FixedInside(kinds))
    ensures Faithful(kinds, buf)
  {
    if RawInside(kinds) {
      RawInsideFails(false, kinds, buf, 0, 0);
    } else if kinds != [] {
      UncheckedAgrees(kinds, buf, 0, 0);
      if ReadTuple(true, kinds, buf, 0, 0).Ok? {
        TupleIsEncoding(true, kinds, buf, 0, 0);
      }
    }
  }

  // ------------------------------------------------------------------- leftover bytes

  /** The unchecked reader fails, or consumes the whole buffer. */
  ghost predicate ConsumesAll(kinds: seq<Kind>, buf: seq<byte>) {
    var r := ReadTuple(false, kinds, buf, 0, 0);
    r.Ok? ==> r.value.pos == |buf|
  }

  /** The unchecked reader fails, or leaves nothing behind but a separator. */
  ghost predicate LeavesNothing(kinds: seq<Kind>, buf: seq<byte>) {
    var r := ReadTuple(false, kinds, buf, 0, 0);
    r.Ok? ==> Finished(buf, r.value.pos)
  }

  predicate EndsRaw(kinds: seq<Kind>) {
    kinds != [] && kinds[|kinds| - 1].KRaw?
  }

  lemma RawConsumesAll(kinds: seq<Kind>, buf: seq<byte>)
    requires EndsRaw(kinds)
    ensures ConsumesAll(kinds, buf)
  {
    hide ReadTuple, ReadElement;
    var init := kinds[..|kinds| - 1];
    assert kinds == init + [KRaw];
    TupleSplit(false, init, [KRaw], buf, 0, 0);
    if ReadTuple(false, kinds, buf, 0, 0).Ok? {
      var r := ReadTuple(false, init, buf, 0, 0).value;
      var p, first, rest := FirstOfTuple(false, [KRaw], buf, r.pos, |init|);
      assert [KRaw][1..] == [];
      EmptyTuple(false, [KRaw][1..], buf, first.pos, |init| + 1);
    }
  }

  lemma {:induction false} SamplesEnd(kinds: seq<Kind>)
    requires ValueKinds(kinds) && !EndsRaw(kinds)
    ensures !LastHoldsRaw(Samples(kinds))
  {
    if kinds != [] {
      SampleAt(kinds, |kinds| - 1);
      SampleFits(kinds[|kinds| - 1]);
    }
  }

  lemma OneLetter()
    ensures HasKind(Str([97]), KStr) && Visible(Str([97])) && Payload(Str([97])) == [97]
  {
    assert [97][1..] == [] && ValidUtf8([97]);
  }

  /** One record more than the schema has: the reader succeeds and leaves it behind. */
  lemma Unread(kinds: seq<Kind>) returns (buf: seq<byte>)
    requires ValueKinds(kinds) && !RawInside(kinds) && !EndsRaw(kinds)
    ensures !LeavesNothing(kinds, buf)
  {
    if kinds == [] {
      buf := [0];
      EmptyTuple(false, kinds, buf, 0, 0);
    } else {
      hide Payload, HasKind, ReadTuple, ReadVal, Readable, Visible, HoldsRaw, Samples, Encode;
      SamplesFit(kinds);
      SamplesEnd(kinds);
      OneLetter();
      buf := Encode(Samples(kinds) + [Str([97])]);
      var pos := ReadFront(false, kinds, Samples(kinds), KStr, Str([97]));
      LetterLeft(buf, pos, |kinds|);
    }
  }

  lemma LetterLeft(buf: seq<byte>, pos: nat, rec: nat)
    requires pos <= |buf| && rec > 0 && ReadTuple(false, [KStr], buf, pos, rec).Ok?
    requires ReadTuple(false, [KStr], buf, pos, rec).value.vals == [Str([97])]
    ensures !Finished(buf, pos)
  {
    var p, first, rest := FirstOfTuple(false, [KStr], buf, pos, rec);
    assert first.val == ([first.val] + rest.vals)[0] == Str([97]);
    assert |buf[p..first.pos]| == 1;
  }

  /** The unchecked reader consumes every buffer it accepts, or all of it but a separator, if and only if
      the schema ends in a byte slice, or a byte slice stands further in front and nothing is accepted. */
  lemma UncheckedConsumesExactly(kinds: seq<Kind>)
    requires ValueKinds(kinds)
    ensures (forall buf :: ConsumesAll(kinds, buf)) <==> RawInside(kinds) || EndsRaw(kinds)
    ensures (forall buf :: LeavesNothing(kinds, buf)) <==> RawInside(kinds) || EndsRaw(kinds)
  {
    if RawInside(kinds) || EndsRaw(kinds) {
      forall buf: seq<byte>
        ensures ConsumesAll(kinds, buf) && LeavesNothing(kinds, buf)
      {
        if RawInside(kinds) {
          RawInsideFails(false, kinds, buf, 0, 0);
        } else {
          RawConsumesAll(kinds, buf);
        }
      }
    } else {
      var buf := Unread(kinds);
      assert !ConsumesAll(kinds, buf);
    }
  }

  /** For example, two bytes are left behind without a word. */
  lemma UncheckedLeavesBytes()
    ensures FromSlice(false, [KStr], [97, SEP, 98]) == Ok([Str([97])])
    ensures FromSlice(true, [KStr], [97, SEP, 98]) == Err(Unfinished)
  {
    var buf: seq<byte> := [97, SEP, 98];
    assert NextSep(buf, 0) == 1 && buf[0..1] == [97] && ValidUtf8([97]);
    assert [KStr][1..] == [];
    forall debug: bool
      ensures ReadTuple(debug, [KStr], buf, 0, 0) == Ok(Reads([Str([97])], 1))
    {
      assert ReadElement(debug, [KStr][0], buf, 0, 0) == Ok(Read(Str([97]), 1));
      EmptyTuple(debug, [KStr][1..], buf, 1, 1);
      TupleStep(debug, [KStr], buf, 0, 0);
      assert [Str([97])] + [] == [Str([97])];
    }
  }
}
