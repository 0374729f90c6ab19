/** buildFile and parseFile of internal/archive/archive.go. */
module ArchiveFile {
  import opened Results
  import opened ArchiveCodec

  /** The header; the id bounds are 64-bit signed. */
  datatype Header = Header(idFrom: Int64, idTo: Int64, digest: Bytes, signature: Bytes)

  /** "IRISAR01". */
  const MAGIC: Bytes := [73, 82, 73, 83, 65, 82, 48, 49]

  function Payload(inner: Bytes): Bytes {
    BigEndian(|inner|, 8) + inner
  }

  function FieldsAndPayload(h: Header, inner: Bytes): Bytes {
    BigEndian(|h.digest|, 2) + h.digest + (BigEndian(|h.signature|, 2) + h.signature + Payload(inner))
  }

  /** The bytes of a file: magic, id range, digest, signature, payload. */
  function Written(h: Header, inner: Bytes): Bytes {
    MAGIC + (BigEndian(Unsigned(h.idFrom), 8) + (BigEndian(Unsigned(h.idTo), 8) + FieldsAndPayload(h, inner)))
  }

  /** Every length fits its length word. */
  ghost predicate Fits(h: Header, inner: Bytes) {
    |h.digest| < TWO_16 && |h.signature| < TWO_16 && |inner| < TWO_64
  }

  /** Appending the pieces one by one nests them. */
  lemma Appended(m: Bytes, f: Bytes, t: Bytes, w1: Bytes, d: Bytes, w2: Bytes, s: Bytes, w3: Bytes, p: Bytes)
    ensures m + f + t + w1 + d + w2 + s + w3 + p == m + (f + (t + (w1 + d + (w2 + s + (w3 + p)))))
  {}

  /** A file from its length words. */
  lemma WrittenFrom(h: Header, inner: Bytes, f: Bytes, t: Bytes, w1: Bytes, w2: Bytes, w3: Bytes)
    requires f == BigEndian(Unsigned(h.idFrom), 8) && t == BigEndian(Unsigned(h.idTo), 8)
    requires w1 == BigEndian(|h.digest|, 2) && w2 == BigEndian(|h.signature|, 2) && w3 == BigEndian(|inner|, 8)
    ensures Written(h, inner) == MAGIC + (f + (t + (w1 + h.digest + (w2 + h.signature + (w3 + inner)))))
  {}

  /** The 2-byte length of a byte string: its uint16 conversion. */
  function LengthWord(b: Bytes): (w: Bytes)
    ensures w == BigEndian(|b|, 2)
  {
    LowHalf(|b|);
    BigEndian(|b| % TWO_16, 2)
  }

  method BuildFile(h: Header, rows: seq<Bytes>) returns (buf: Bytes)
    ensures buf == Written(h, EncodedRows(rows))
  {
    var inner := EncodeRows(rows);
    var f, t := BigEndian(Unsigned(h.idFrom), 8), BigEndian(Unsigned(h.idTo), 8);
    var dl, sl, pl := LengthWord(h.digest), LengthWord(h.signature), BigEndian(|inner|, 8);
    WrittenFrom(h, inner, f, t, dl, sl, pl);
    Appended(MAGIC, f, t, dl, h.digest, sl, h.signature, pl, inner);
    buf := MAGIC;
    buf := buf + f;
    buf := buf + t;
    buf := buf + dl;
    buf := buf + h.digest;
    buf := buf + sl;
    buf := buf + h.signature;
    buf := buf + pl;
    buf := buf + inner;
  }

  /** The uint16 conversion is what the length word keeps anyway. */
  lemma LowHalf(n: nat)
    ensures BigEndian(n % TWO_16, 2) == BigEndian(n, 2)
  {
    var m := n % TWO_16;
    assert m % 256 == n % 256 && m / 256 % 256 == n / 256 % 256;
    HalfWordBytes(m);
    HalfWordBytes(n);
  }

  datatype FileError =
    | TooSmall
    | BadMagic
    | TruncatedDigest
    | TruncatedSignature
    | TruncatedPayloadLength
    | PayloadMismatch

  lemma UnsignedInjective(x: Int64, y: Int64)
    requires Unsigned(x) == Unsigned(y)
    ensures x == y
  {}

  lemma FieldsDetermine(h: Header, inner: Bytes, h': Header, inner': Bytes)
    requires Fits(h, inner) && Fits(h', inner')
    requires FieldsAndPayload(h, inner) <= FieldsAndPayload(h', inner')
    ensures h.digest == h'.digest && h.signature == h'.signature && inner == inner'
  {
    HalfWordsDiffer(|h.digest|, |h'.digest|);
    var rest := BigEndian(|h.signature|, 2) + h.signature + Payload(inner);
    var rest' := BigEndian(|h'.signature|, 2) + h'.signature + Payload(inner');
    CutField(BigEndian(|h.digest|, 2), h.digest, rest, BigEndian(|h'.digest|, 2), h'.digest, rest');
    HalfWordsDiffer(|h.signature|, |h'.signature|);
    CutField(BigEndian(|h.signature|, 2), h.signature, Payload(inner),
             BigEndian(|h'.signature|, 2), h'.signature, Payload(inner'));
    WordsDiffer(|inner|, |inner'|);
    assert Payload(inner) == BigEndian(|inner|, 8) + inner + [];
    assert Payload(inner') == BigEndian(|inner'|, 8) + inner' + [];
    CutField(BigEndian(|inner|, 8), inner, [], BigEndian(|inner'|, 8), inner', []);
  }

  /** No file is a prefix of another, so a file's bytes determine its content. */
  lemma FilesArePrefixFree(h: Header, inner: Bytes, h': Header, inner': Bytes)
    requires Fits(h, inner) && Fits(h', inner')
    requires Written(h, inner) <= Written(h', inner')
    ensures h == h' && inner == inner'
  {
    var f, t, r := BigEndian(Unsigned(h.idFrom), 8), BigEndian(Unsigned(h.idTo), 8), FieldsAndPayload(h, inner);
    var f', t', r' := BigEndian(Unsigned(h'.idFrom), 8), BigEndian(Unsigned(h'.idTo), 8), FieldsAndPayload(h', inner');
    CutFront(MAGIC, f + (t + r), MAGIC, f' + (t' + r'));
    CutFront(f, t + r, f', t' + r');
    CutFront(t, r, t', r');
    WordsDiffer(Unsigned(h.idFrom), Unsigned(h'.idFrom));
    WordsDiffer(Unsigned(h.idTo), Unsigned(h'.idTo));
    UnsignedInjective(h.idFrom, h'.idFrom);
    UnsignedInjective(h.idTo, h'.idTo);
    FieldsDetermine(h, inner, h', inner');
  }

  /** b is no file. */
  ghost predicate Refusable(b: Bytes) {
    forall h, inner :: Fits(h, inner) ==> Written(h, inner) != b
  }

  /** What one field of a file reads. */
  ghost predicate Reads(b: Bytes, lo: nat, hi: nat, n: nat) {
    lo <= hi <= |b| && Number(b[lo..hi]) == n
  }

  /** b's length words read dl, sl and pl, and add up to its size. */
  ghost predicate Shaped(b: Bytes, dl: nat, sl: nat, pl: nat) {
    && 26 <= |b| && b[..8] == MAGIC
    && Reads(b, 24, 26, dl) && Reads(b, 26 + dl, 28 + dl, sl)
    && Reads(b, 28 + dl + sl, 36 + dl + sl, pl)
    && |b| == 36 + dl + sl + pl
  }

  /** The bytes of a file, place by place, behind "IRISAR01". */
  ghost predicate LaidOut(b: Bytes, h: Header, inner: Bytes) {
    var dl, sl := |h.digest|, |h.signature|;
    && |b| == 36 + dl + sl + |inner|
    && b[..8] == [73, 82, 73, 83, 65, 82, 48, 49]
    && b[8..16] == BigEndian(Unsigned(h.idFrom), 8) && b[16..24] == BigEndian(Unsigned(h.idTo), 8)
    && b[24..26] == BigEndian(dl, 2) && b[26..26 + dl] == h.digest
    && b[26 + dl..28 + dl] == BigEndian(sl, 2) && b[28 + dl..28 + dl + sl] == h.signature
    && b[28 + dl + sl..36 + dl + sl] == BigEndian(|inner|, 8) && b[36 + dl + sl..] == inner
  }

  /** The written file is that layout. */
  lemma WrittenIsLaidOut(h: Header, inner: Bytes)
    ensures LaidOut(Written(h, inner), h, inner)
  {
    var f, t := BigEndian(Unsigned(h.idFrom), 8), BigEndian(Unsigned(h.idTo), 8);
    var w1, w2, w3 := BigEndian(|h.digest|, 2), BigEndian(|h.signature|, 2), BigEndian(|inner|, 8);
    WrittenFrom(h, inner, f, t, w1, w2, w3);
    Pieces(MAGIC, f, t, w1, h.digest, w2, h.signature, w3, inner);
  }

  lemma ShortReads(b: Bytes, lo: nat, n: nat)
    requires n < TWO_16 && lo + 2 <= |b| && b[lo..lo + 2] == BigEndian(n, 2)
    ensures Reads(b, lo, lo + 2, n)
  {
    WordSizes();
    NumberOfBigEndian(n, 2);
  }

  lemma LongReads(b: Bytes, lo: nat, n: nat)
    requires n < TWO_64 && lo + 8 <= |b| && b[lo..lo + 8] == BigEndian(n, 8)
    ensures Reads(b, lo, lo + 8, n)
  {
    WordSizes();
    NumberOfBigEndian(n, 8);
  }

  lemma WrittenIsShaped(h: Header, inner: Bytes)
    requires Fits(h, inner)
    ensures Shaped(Written(h, inner), |h.digest|, |h.signature|, |inner|)
  {
    var b, dl, sl := Written(h, inner), |h.digest|, |h.signature|;
    WrittenIsLaidOut(h, inner);
    ShortReads(b, 24, dl);
    ShortReads(b, 26 + dl, sl);
    LongReads(b, 28 + dl + sl, |inner|);
  }

  /** Bytes no lengths fit are no file. */
  lemma UnshapedIsRefusable(b: Bytes)
    requires forall dl, sl, pl :: !Shaped(b, dl, sl, pl)
    ensures Refusable(b)
  {
    forall h, inner | Fits(h, inner) ensures Written(h, inner) != b {
      WrittenIsShaped(h, inner);
      assert !Shaped(b, |h.digest|, |h.signature|, |inner|);
    }
  }

  /** The first length word a failing test read refuses the file. */
  lemma BadDigestLength(b: Bytes, dl: nat)
    requires Reads(b, 24, 26, dl) && |b| < 28 + dl
    ensures Refusable(b)
  {
    UnshapedIsRefusable(b);
  }

  lemma BadSignatureLength(b: Bytes, dl: nat, sl: nat)
    requires Reads(b, 24, 26, dl) && Reads(b, 26 + dl, 28 + dl, sl) && |b| < 36 + dl + sl
    ensures Refusable(b)
  {
    UnshapedIsRefusable(b);
  }

  lemma BadPayloadLength(b: Bytes, dl: nat, sl: nat, pl: nat)
    requires Reads(b, 24, 26, dl) && Reads(b, 26 + dl, 28 + dl, sl)
    requires Reads(b, 28 + dl + sl, 36 + dl + sl, pl) && |b| != 36 + dl + sl + pl
    ensures Refusable(b)
  {
    forall d: nat, s: nat, p: nat ensures !Shaped(b, d, s, p) {
      if Shaped(b, d, s, p) { LengthsAreRead(b, d, s, p, dl, sl, pl); }
    }
    UnshapedIsRefusable(b);
  }

  lemma LengthsAreRead(b: Bytes, d: nat, s: nat, p: nat, dl: nat, sl: nat, pl: nat)
    requires Shaped(b, d, s, p)
    requires Reads(b, 24, 26, dl) && Reads(b, 26 + dl, 28 + dl, sl) && Reads(b, 28 + dl + sl, 36 + dl + sl, pl)
    ensures d == dl && s == sl && p == pl
  {}

  /** Where each piece of a file lies. */
  lemma Pieces(m: Bytes, f: Bytes, t: Bytes, w1: Bytes, d: Bytes, w2: Bytes, s: Bytes, w3: Bytes, p: Bytes)
    requires |m| == |f| == |t| == |w3| == 8 && |w1| == |w2| == 2
    ensures var b := m + (f + (t + (w1 + d + (w2 + s + (w3 + p)))));
            && |b| == 36 + |d| + |s| + |p|
            && b[..8] == m && b[8..16] == f && b[16..24] == t && b[24..26] == w1 && b[26..26 + |d|] == d
            && b[26 + |d|..28 + |d|] == w2 && b[28 + |d|..28 + |d| + |s|] == s
            && b[28 + |d| + |s|..36 + |d| + |s|] == w3 && b[36 + |d| + |s|..] == p
  {}

  /** A file cut into its pieces. */
  lemma Reassemble(b: Bytes, dl: nat, sl: nat)
    requires 36 + dl + sl <= |b|
    ensures b == b[..8] + (b[8..16] + (b[16..24] + (b[24..26] + b[26..26 + dl]
                 + (b[26 + dl..28 + dl] + b[28 + dl..28 + dl + sl]
                 + (b[28 + dl + sl..36 + dl + sl] + b[36 + dl + sl..])))))
  {}

  /** b is the file of its id words, a digest, a signature and a payload. */
  ghost predicate Rebuilds(b: Bytes, digest: Bytes, signature: Bytes, inner: Bytes)
    requires 24 <= |b|
  {
    var h := Header(Signed(WordAt(b, 8)), Signed(WordAt(b, 16)), digest, signature);
    Fits(h, inner) && Written(h, inner) == b
  }

  /** The parsed pieces are the file's content. */
  lemma PiecesRebuild(b: Bytes, dl: nat, sl: nat, pl: nat)
    requires 26 <= |b| && Shaped(b, dl, sl, pl)
    ensures Rebuilds(b, b[26..26 + dl], b[28 + dl..28 + dl + sl], b[36 + dl + sl..])
  {
    var h := Header(Signed(WordAt(b, 8)), Signed(WordAt(b, 16)), b[26..26 + dl], b[28 + dl..28 + dl + sl]);
    var inner := b[36 + dl + sl..];
    ShortWord(b, 24, dl);
    ShortWord(b, 26 + dl, sl);
    LongWord(b, 28 + dl + sl, pl);
    Rebuilt(b, h, inner, dl, sl);
  }

  lemma Rebuilt(b: Bytes, h: Header, inner: Bytes, dl: nat, sl: nat)
    requires 36 + dl + sl <= |b| && b[..8] == MAGIC
    requires b[8..16] == BigEndian(Unsigned(h.idFrom), 8) && b[16..24] == BigEndian(Unsigned(h.idTo), 8)
    requires b[24..26] == BigEndian(|h.digest|, 2) && b[26 + dl..28 + dl] == BigEndian(|h.signature|, 2)
    requires b[28 + dl + sl..36 + dl + sl] == BigEndian(|inner|, 8)
    requires h.digest == b[26..26 + dl] && h.signature == b[28 + dl..28 + dl + sl] && inner == b[36 + dl + sl..]
    ensures Written(h, inner) == b
  {
    WrittenFrom(h, inner, b[8..16], b[16..24], b[24..26], b[26 + dl..28 + dl], b[28 + dl + sl..36 + dl + sl]);
    Reassemble(b, dl, sl);
  }

  lemma ShortWord(b: Bytes, lo: nat, n: nat)
    requires Reads(b, lo, lo + 2, n)
    ensures n < TWO_16 && b[lo..lo + 2] == BigEndian(n, 2)
  {
    WordSizes();
    NumberWord(b[lo..lo + 2]);
  }

  lemma LongWord(b: Bytes, lo: nat, n: nat)
    requires Reads(b, lo, lo + 8, n)
    ensures n < TWO_64 && b[lo..lo + 8] == BigEndian(n, 8)
  {
    WordSizes();
    NumberWord(b[lo..lo + 8]);
  }

  lemma NumberWord(w: Bytes)
    ensures Number(w) < Pow256(|w|) && BigEndian(Number(w), |w|) == w
  {
    NumberBound(w);
    BigEndianOfNumber(w);
  }

  /** Why what follows the digest is refused: where the bytes end too early, or go on. */
  ghost predicate TailBlamed(b: Bytes, dl: nat, fault: FileError)
    requires 28 + dl <= |b|
  {
    var sl := Number(b[26 + dl..28 + dl]);
    if |b| < 28 + dl + sl then fault == TruncatedSignature
    else if |b| < 36 + dl + sl then fault == TruncatedPayloadLength
    else |b| != 36 + dl + sl + Number(b[28 + dl + sl..36 + dl + sl]) && fault == PayloadMismatch
  }

  /** Why bytes are refused: the first of these that is wrong. */
  ghost predicate FileBlamed(b: Bytes, fault: FileError) {
    if |b| < 26 then fault == TooSmall
    else if b[..8] != MAGIC then fault == BadMagic
    else
      var dl := Number(b[24..26]);
      if |b| < 26 + dl then fault == TruncatedDigest
      else if |b| < 28 + dl then fault == TruncatedSignature
      else TailBlamed(b, dl, fault)
  }

  /** The content of a file whose digest has been read: its signature and payload. */
  method ParseTail(b: Bytes, dl: nat) returns (r: Result<(Bytes, Bytes), FileError>)
    requires 28 + dl <= |b| && b[..8] == MAGIC && Reads(b, 24, 26, dl)
    ensures r.Ok? ==> Rebuilds(b, b[26..26 + dl], r.value.0, r.value.1)
    ensures r.Err? ==> Refusable(b) && TailBlamed(b, dl, r.error)
  {
    var off := 26 + dl;
    var sl := Number(b[off..off + 2]);
    assert Reads(b, 26 + dl, 28 + dl, sl);
    off := off + 2;
    if off + sl > |b| {
      BadSignatureLength(b, dl, sl);
      return Err(TruncatedSignature);
    }
    var sig := b[off..off + sl];
    off := off + sl;
    if off + 8 > |b| {
      BadSignatureLength(b, dl, sl);
      return Err(TruncatedPayloadLength);
    }
    var plen := Number(b[off..off + 8]);
    assert Reads(b, 28 + dl + sl, 36 + dl + sl, plen);
    off := off + 8;
    if off + plen != |b| {
      BadPayloadLength(b, dl, sl, plen);
      return Err(PayloadMismatch);
    }
    PiecesRebuild(b, dl, sl, plen);
    return Ok((sig, b[off..]));
  }

  /** Splits a file into header and payload, or refuses bytes that are no file. */
  method ParseFile(b: Bytes) returns (r: Result<(Header, Bytes), FileError>)
    ensures r.Ok? ==> Fits(r.value.0, r.value.1) && Written(r.value.0, r.value.1) == b
    ensures r.Err? ==> Refusable(b)
    ensures r.Err? ==> FileBlamed(b, r.error)
  {
    if |b| < 8 + 8 + 8 + 2 {
      UnshapedIsRefusable(b);
      return Err(TooSmall);
    }
    if b[..8] != MAGIC {
      UnshapedIsRefusable(b);
      return Err(BadMagic);
    }
    var off := 8;
    var idFrom := Signed(WordAt(b, off));
    off := off + 8;
    var idTo := Signed(WordAt(b, off));
    off := off + 8;
    var dl := Number(b[off..off + 2]);
    assert Reads(b, 24, 26, dl);
    off := off + 2;
    if off + dl > |b| {
      BadDigestLength(b, dl);
      return Err(TruncatedDigest);
    }
    var dig := b[off..off + dl];
    off := off + dl;
    // The source reads the two length bytes without testing that they are there; a
    // file that ends here is refused.
    if off + 2 > |b| {
      BadDigestLength(b, dl);
      return Err(TruncatedSignature);
    }
    var tail := ParseTail(b, dl);
    if tail.Err? { return Err(tail.error); }
    return Ok((Header(idFrom, idTo, dig, tail.value.0), tail.value.1));
  }

  /** The 8-byte word at off. */
  function WordAt(b: Bytes, off: nat): (n: nat)
    requires off + 8 <= |b|
    ensures n < TWO_64 && BigEndian(n, 8) == b[off..off + 8]
  {
    WordSizes();
    NumberBound(b[off..off + 8]);
    BigEndianOfNumber(b[off..off + 8]);
    Number(b[off..off + 8])
  }

  /** b is the file of h and rows. */
  ghost predicate Holds(b: Bytes, h: Header, rows: seq<Bytes>) {
    RowsFit(rows) && Fits(h, EncodedRows(rows)) && Written(h, EncodedRows(rows)) == b
  }

  /** A file's bytes are the file of one header and one row list only, and of
      nothing if they are a proper prefix of a file's. */
  lemma HoldsUniquely(b: Bytes, h: Header, rows: seq<Bytes>, b': Bytes, h': Header, rows': seq<Bytes>)
    requires Holds(b, h, rows) && Holds(b', h', rows') && b <= b'
    ensures b == b' && h == h' && rows == rows'
  {
    FilesArePrefixFree(h, EncodedRows(rows), h', EncodedRows(rows'));
    EncodedRowsInjective(rows, rows');
  }

  lemma {:induction false} EncodedBound(rows: seq<Bytes>, r: Bytes)
    requires r in rows
    ensures |r| < |EncodedRows(rows)|
  {
    if rows[0] != r { EncodedBound(rows[1..], r); }
  }

  /** A built file holds what it was built from exactly when digest and signature fit
      their length words (the payload being shorter than 2^64). */
  lemma BuiltFileHoldsExactly(h: Header, rows: seq<Bytes>)
    requires |EncodedRows(rows)| < TWO_64
    ensures Holds(Written(h, EncodedRows(rows)), h, rows) <==> |h.digest| < TWO_16 && |h.signature| < TWO_16
  {
    forall r | r in rows ensures |r| < TWO_64 { EncodedBound(rows, r); }
  }

  datatype ReadError = BadFile(file: FileError) | BadRows(rows: RowError)

  /** Reads a file back: header and rows, or a refusal of bytes that are the file
      of nothing. */
  method Read(b: Bytes) returns (r: Result<(Header, seq<Bytes>), ReadError>)
    ensures r.Ok? ==> Holds(b, r.value.0, r.value.1)
    ensures r.Err? ==> forall h, rows :: !Holds(b, h, rows)
  {
    var parsed := ParseFile(b);
    if parsed.Err? {
      forall h, rows ensures !Holds(b, h, rows) {
        assert Fits(h, EncodedRows(rows)) ==> Written(h, EncodedRows(rows)) != b;
      }
      return Err(BadFile(parsed.error));
    }
    var (h, inner) := parsed.value;
    var decoded := DecodeRows(inner);
    if decoded.Err? {
      forall h', rows ensures !Holds(b, h', rows) {
        if Holds(b, h', rows) { FilesArePrefixFree(h', EncodedRows(rows), h, inner); }
      }
      return Err(BadRows(decoded.error));
    }
    return Ok((h, decoded.value));
  }

  /** What buildFile writes reads back to the same header and rows exactly when digest
      and signature are shorter than 2^16 bytes. */
  method BuildThenRead(h: Header, rows: seq<Bytes>) returns (r: Result<(Header, seq<Bytes>), ReadError>)
    requires |EncodedRows(rows)| < TWO_64
    ensures r == Ok((h, rows)) <==> |h.digest| < TWO_16 && |h.signature| < TWO_16
  {
    var file := BuildFile(h, rows);
    r := Read(file);
    BuiltFileHoldsExactly(h, rows);
    if Holds(file, h, rows) && r.Ok? { HoldsUniquely(file, h, rows, file, r.value.0, r.value.1); }
  }
}
