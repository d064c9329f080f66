/** The round trip of the record format and its exact condition. */
module CodecTheorems {
  import opened Bytes
  import opened Codec

  // ------------------------------------------------- when a value can be read back

  /** An option is read back as `Just` only when its record cannot be mistaken for an empty one. */
  predicate Visible(v: Val) {
    v.Just? ==> Payload(v.inner) != [] && Payload(v.inner)[0] != SEP && Visible(v.inner)
  }

  /** A byte slice swallows everything that follows it. */
  predicate HoldsRaw(v: Val) {
    v.Raw? || (v.Just? && HoldsRaw(v.inner))
  }

  /** The exact condition under which a tuple survives a round trip. */
  predicate Decodable(vals: seq<Val>) {
    Readable(vals) && (|vals| == 1 ==> Payload(vals[0]) != [])
  }

  /** Every component is visible, and only the last one may hold a byte slice. */
  predicate Readable(vals: seq<Val>) {
    vals != [] ==> Visible(vals[0]) && (|vals| > 1 ==> !HoldsRaw(vals[0]) && Readable(vals[1..]))
  }

  /** The record of `v` stands at `pos` and is closed by a separator or by the end. */
  predicate Delimited(buf: seq<byte>, pos: nat, v: Val) {
    var e := pos + |Payload(v)|;
    e <= |buf| && buf[pos..e] == Payload(v) && (e == |buf| || buf[e] == SEP)
  }

  lemma {:induction false} NextSepFound(buf: seq<byte>, pos: nat, e: nat)
    requires pos <= e <= |buf| && (e == |buf| || buf[e] == SEP)
    requires SEP !in buf[pos..e]
    ensures NextSep(buf, pos) == e
    decreases e - pos
  {
    if pos < e {
      assert buf[pos] in buf[pos..e];
      assert buf[pos + 1..e] == buf[pos..e][1..];
      NextSepFound(buf, pos + 1, e);
    }
  }

  lemma Word(buf: seq<byte>, pos: nat, n: nat)
    requires pos + 8 <= |buf| && n < TWO64 && buf[pos..pos + 8] == BigEndian(n, 8)
    ensures FromBigEndian(buf[pos..pos + 8]) == n
  {
    WordRange();
    BigEndianInverse(n, 8);
  }

  /** A delimited record is read back exactly when it is visible and, for a byte slice, last. */
  lemma {:induction false} RecordReadBack(v: Val, k: Kind, buf: seq<byte>, pos: nat)
    requires HasKind(v, k) && pos <= |buf| && Delimited(buf, pos, v)
    ensures (ReadVal(true, k, buf, pos).Ok? && ReadVal(true, k, buf, pos).value.val == v)
        <==> (Visible(v) && (HoldsRaw(v) ==> pos + |Payload(v)| == |buf|))
    ensures Visible(v) && (HoldsRaw(v) ==> pos + |Payload(v)| == |buf|)
        ==> ReadVal(true, k, buf, pos) == Ok(Read(v, pos + |Payload(v)|))
  {
    hide BigEndian, FromBigEndian, ValidUtf8, NextSep, Pow256;
    var e := pos + |Payload(v)|;
    match k
    case KStr =>
      SepNotInUtf8(v.text);
      NextSepFound(buf, pos, e);
    case KU64 =>
      Word(buf, pos, v.n);
    case KI64 =>
      Word(buf, pos, v.i % TWO64);
    case KRaw =>
    case KOpt(inner) =>
      if v.Just? {
        assert Payload(v) == Payload(v.inner);
        assert Payload(v) != [] ==> Payload(v)[0] == buf[pos];
        RecordReadBack(v.inner, inner, buf, pos);
      }
    case KIgnore =>
    case KIgnoreAll =>
  }

  // ------------------------------------------------------------------ round trip

  /** The tuple `vals` is what is left in `buf` after `pos`, up to its end; the byte in front of it is
      a separator at least where the reader looks at it. */
  predicate Remains(debug: bool, buf: seq<byte>, pos: nat, rec: nat, vals: seq<Val>) {
    if pos != 0 || rec > 0 then pos < |buf| && (debug ==> buf[pos] == SEP) && buf[pos + 1..] == Encode(vals)
    else buf == Encode(vals)
  }

  /** The first record of a non-empty remainder is delimited, and the others remain behind it. */
  lemma FirstRecord(debug: bool, buf: seq<byte>, pos: nat, rec: nat, vals: seq<Val>)
    requires vals != [] && pos <= |buf| && Remains(debug, buf, pos, rec, vals)
    ensures var p := RecordPos(pos, rec);
            && Delimited(buf, p, vals[0])
            && (|vals| == 1 ==> p + |Payload(vals[0])| == |buf|)
            && (|vals| > 1 ==> p + |Payload(vals[0])| < |buf|)
            && (|vals| > 1 ==> Remains(debug, buf, p + |Payload(vals[0])|, rec + 1, vals[1..]))
  {
    var p := RecordPos(pos, rec);
    var w := Payload(vals[0]);
    assert buf[p..] == Encode(vals);
    assert buf == buf[..p] + Encode(vals);
    if |vals| > 1 {
      assert Encode(vals) == w + [SEP] + Encode(vals[1..]);
      assert buf == (buf[..p] + w) + [SEP] + Encode(vals[1..]);
      assert |buf[..p] + w| == p + |w|;
    }
  }

  lemma ElementReadBack(debug: bool, vals: seq<Val>, k: Kind, buf: seq<byte>, pos: nat, rec: nat)
    requires vals != [] && HasKind(vals[0], k) && pos < |buf| && Remains(debug, buf, pos, rec, vals)
    ensures var good := Visible(vals[0]) && (|vals| > 1 ==> !HoldsRaw(vals[0]));
            var r := ReadElement(debug, k, buf, pos, rec);
            && ((r.Ok? && r.value.val == vals[0]) <==> good)
            && (good ==> r == Ok(Read(vals[0], RecordPos(pos, rec) + |Payload(vals[0])|)))
  {
    FirstRecord(debug, buf, pos, rec, vals);
    RecordReadBack(vals[0], k, buf, RecordPos(pos, rec));
  }

  /** One unfolding of `ReadTuple`. */
  lemma TupleStep(debug: bool, kinds: seq<Kind>, buf: seq<byte>, pos: nat, rec: nat)
    requires kinds != [] && pos <= |buf|
    ensures match ReadElement(debug, kinds[0], buf, pos, rec)
            case Err(f) => ReadTuple(debug, kinds, buf, pos, rec) == Err(f)
            case Ok(w) =>
              match ReadTuple(debug, kinds[1..], buf, w.pos, rec + 1)
              case Err(f) => ReadTuple(debug, kinds, buf, pos, rec) == Err(f)
              case Ok(t) => ReadTuple(debug, kinds, buf, pos, rec) == Ok(Reads([w.val] + t.vals, t.pos))
  {
    hide ReadElement;
  }

  lemma EmptyTuple(debug: bool, kinds: seq<Kind>, buf: seq<byte>, pos: nat, rec: nat)
    requires pos <= |buf|
    ensures kinds == [] ==> ReadTuple(debug, kinds, buf, pos, rec) == Ok(Reads([], pos))
  {
  }

  lemma {:induction false} TupleReadBack(debug: bool, vals: seq<Val>, kinds: seq<Kind>, buf: seq<byte>, pos: nat, rec: nat)
    requires HasKinds(vals, kinds) && vals != [] && pos <= |buf| && Remains(debug, buf, pos, rec, vals)
    ensures var good := pos < |buf| && Readable(vals);
            var r := ReadTuple(debug, kinds, buf, pos, rec);
            && ((r.Ok? && r.value.vals == vals) <==> good)
            && (good ==> r == Ok(Reads(vals, |buf|)))
    decreases |vals|
  {
    hide Payload, Encode, Remains, HasKind, ReadTuple, ReadVal, Visible, HoldsRaw, RecordPos;
    TupleStep(debug, kinds, buf, pos, rec);
    if pos == |buf| {
      return;
    }
    hide ReadElement;
    assert |vals| == 1 ==> ReadTuple(debug, kinds[1..], buf, |buf|, rec + 1) == Ok(Reads([], |buf|)) by {
      EmptyTuple(debug, kinds[1..], buf, |buf|, rec + 1);
    }
    var (v, tail) := (vals[0], vals[1..]);
    assert vals == [v] + tail;
    ElementReadBack(debug, vals, kinds[0], buf, pos, rec);
    FirstRecord(debug, buf, pos, rec, vals);
    if tail != [] && Visible(v) && !HoldsRaw(v) {
      TupleReadBack(debug, tail, kinds[1..], buf, RecordPos(pos, rec) + |Payload(v)|, rec + 1);
    }
  }

  /** Decoding an encoding gives the tuple back exactly when it is `Decodable`, with and
      without the debug assertions. */
  lemma RoundTrip(debug: bool, vals: seq<Val>, kinds: seq<Kind>)
    requires HasKinds(vals, kinds)
    ensures FromSlice(debug, kinds, Encode(vals)) == Ok(vals) <==> Decodable(vals)
  {
    if vals != [] {
      TupleReadBack(debug, vals, kinds, Encode(vals), 0, 0);
      if |vals| > 1 {
        assert Encode(vals)[|Payload(vals[0])|] == SEP;
      }
    }
  }

  /** Two decodable tuples of one schema never share an encoding. */
  lemma EncodeInjective(a: seq<Val>, b: seq<Val>, kinds: seq<Kind>)
    requires HasKinds(a, kinds) && HasKinds(b, kinds) && Decodable(a) && Decodable(b)
    requires Encode(a) == Encode(b)
    ensures a == b
  {
    RoundTrip(true, a, kinds);
    RoundTrip(true, b, kinds);
  }

  // ---------------------------------------------- the side conditions are needed

  /** Concrete tuples that are lost: a lone empty record, an empty `Some`, `Some(-1)`, a slice before the end. */
  lemma LostTuples(debug: bool)
    ensures FromSlice(debug, [KStr], Encode([Str([])])) != Ok([Str([])])
    ensures var v := [Just(Str([])), Str([97])]; FromSlice(debug, [KOpt(KStr), KStr], Encode(v)) != Ok(v)
    ensures var v := [Just(I64(-1)), Str([97])]; FromSlice(debug, [KOpt(KI64), KStr], Encode(v)) != Ok(v)
    ensures var v := [Raw([97]), Str([97])]; FromSlice(debug, [KRaw, KStr], Encode(v)) != Ok(v)
  {
    hide FromSlice, Encode;
    assert ValidUtf8([97]);
    RoundTrip(debug, [Str([])], [KStr]);
    RoundTrip(debug, [Just(Str([])), Str([97])], [KOpt(KStr), KStr]);
    assert BigEndian(0xFFFF_FFFF_FFFF_FFFF, 8)[0] == SEP;
    var v := [Just(I64(-1)), Str([97])];
    assert Payload(v[0].inner)[0] == SEP;
    RoundTrip(debug, v, [KOpt(KI64), KStr]);
    var w := [Raw([97]), Str([97])];
    assert HoldsRaw(w[0]);
    RoundTrip(debug, w, [KRaw, KStr]);
  }

  // ------------------------------------------------------------------------ texts and faults

  /** Every non-empty text over the Unicode scalar values survives as a key of its own. */
  lemma TextRoundTrip(debug: bool, text: seq<nat>)
    requires text != [] && forall c :: c in text ==> Scalar(c)
    ensures FromSlice(debug, [KStr], Encode([Str(TextBytes(text))])) == Ok([Str(TextBytes(text))])
  {
    TextIsValid(text);
    RoundTrip(debug, [Str(TextBytes(text))], [KStr]);
  }

  /** The fault of a string is that its bytes are no text. */
  lemma BadText(inTuple: bool, buf: seq<byte>, pos: nat, e: nat)
    requires pos <= e <= |buf| && SEP !in buf[pos..e] && (e == |buf| || buf[e] == SEP)
    ensures ReadVal(inTuple, KStr, buf, pos) == Err(BadUtf8) <==>
              !exists text: seq<nat> :: (forall c :: c in text ==> Scalar(c)) && TextBytes(text) == buf[pos..e]
    ensures ReadVal(inTuple, KStr, buf, pos).Err? <==> ReadVal(inTuple, KStr, buf, pos) == Err(BadUtf8)
  {
    NextSepFound(buf, pos, e);
    ValidExactly(buf[pos..e]);
  }

  /** An integer fails for want of eight bytes, an element for want of a record or, when checked, of a separator. */
  lemma Faults(debug: bool, k: Kind, buf: seq<byte>, pos: nat, rec: nat)
    requires pos <= |buf|
    ensures k.KU64? || k.KI64? ==> (ReadVal(true, k, buf, pos) == Err(Underflow) <==> |buf| - pos < 8)
    ensures k.KU64? || k.KI64? ==> (ReadVal(true, k, buf, pos).Ok? <==> |buf| - pos >= 8)
    ensures ReadElement(debug, k, buf, |buf|, rec) == Err(WrongLength)
    ensures pos < |buf| && buf[pos] != SEP && (pos > 0 || rec > 0) ==>
              ReadElement(true, k, buf, pos, rec) == Err(MissingSeparator)
  {
  }

  /** `Ignore` skips one record inside a tuple, and everything on its own, so that nothing is left over. */
  lemma IgnoreSkips(buf: seq<byte>, pos: nat, e: nat)
    requires pos <= e <= |buf| && SEP !in buf[pos..e] && (e == |buf| || buf[e] == SEP)
    ensures ReadVal(true, KIgnore, buf, pos) == Ok(Read(Skipped, e))
    ensures ReadVal(false, KIgnore, buf, pos) == Ok(Read(Skipped, |buf|)) && Finished(buf, |buf|)
  {
    NextSepFound(buf, pos, e);
  }
}
