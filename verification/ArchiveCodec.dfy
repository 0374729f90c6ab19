/** The archive file format of internal/archive/archive.go: length-prefixed rows
    behind a header of id range, digest and signature. */
module ArchiveCodec {
  import opened Results

  type Byte = x: int | 0 <= x < 256

  type Bytes = seq<Byte>

  const TWO_16 := 0x1_0000
  const TWO_63 := 0x8000_0000_0000_0000
  const TWO_64 := 0x1_0000_0000_0000_0000

  type Int64 = x: int | -TWO_63 <= x < TWO_63

  // ------------------------------------------------------------ big-endian words

  function Pow256(k: nat): nat {
    if k == 0 then 1 else 256 * Pow256(k - 1)
  }

  /** The low k bytes of n, most significant first. */
  function BigEndian(n: nat, k: nat): (b: Bytes)
    ensures |b| == k
  {
    if k == 0 then [] else BigEndian(n / 256, k - 1) + [n % 256]
  }

  function Number(b: Bytes): nat {
    if b == [] then 0 else Number(b[..|b| - 1]) * 256 + b[|b| - 1]
  }

  lemma {:induction false} NumberBound(b: Bytes)
    ensures Number(b) < Pow256(|b|)
  {
    if b != [] { NumberBound(b[..|b| - 1]); }
  }

  lemma {:induction false} BigEndianOfNumber(b: Bytes)
    ensures BigEndian(Number(b), |b|) == b
  {
    if b != [] {
      var init, last := b[..|b| - 1], b[|b| - 1];
      BigEndianOfNumber(init);
      assert Number(b) == Number(init) * 256 + last;
      assert Number(b) / 256 == Number(init) && Number(b) % 256 == last;
      assert b == init + [last];
    }
  }

  lemma {:induction false} NumberOfBigEndian(n: nat, k: nat)
    requires n < Pow256(k)
    ensures Number(BigEndian(n, k)) == n
  {
    if k > 0 {
      var b := BigEndian(n, k);
      NumberOfBigEndian(n / 256, k - 1);
      assert b[..|b| - 1] == BigEndian(n / 256, k - 1);
      assert b[|b| - 1] == n % 256;
    }
  }

  lemma WordSizes()
    ensures Pow256(2) == TWO_16 && Pow256(8) == TWO_64
  {
    assert Pow256(1) == 256;
    assert Pow256(2) == TWO_16;
    assert Pow256(3) == 0x1_0000_00;
    assert Pow256(4) == 0x1_0000_0000;
    assert Pow256(5) == 0x1_0000_0000_00;
    assert Pow256(6) == 0x1_0000_0000_0000;
    assert Pow256(7) == 0x1_0000_0000_0000_00;
  }

  lemma DivDiv(n: nat, d: nat)
    requires d > 0
    ensures n / 256 / d == n / (256 * d)
  {
    var q, r := n / 256 / d, n / 256 % d;
    Redistribute(d, q, r);
    QuotientIs(n, 256 * d, q, 256 * r + n % 256);
  }

  lemma Redistribute(d: nat, q: nat, r: nat)
    ensures 256 * (d * q + r) == 256 * d * q + 256 * r
  {}

  lemma QuotientIs(n: nat, d: nat, q: nat, r: nat)
    requires n == d * q + r && r < d
    ensures n / d == q
  {
    var q', r' := n / d, n % d;
    assert d * (q' - q) == r - r';
    if q' > q {
      MultipleIsLarge(d, q' - q);
      assert false;
    } else if q' < q {
      MultipleIsLarge(d, q - q');
      assert false;
    }
  }

  lemma MultipleIsLarge(d: nat, k: nat)
    requires k > 0
    ensures d * k >= d
  {}

  /** Byte i of k, from the most significant. */
  lemma {:induction false} ByteAt(n: nat, k: nat, i: nat)
    requires i < k
    ensures Pow256(k - 1 - i) > 0 && BigEndian(n, k)[i] == n / Pow256(k - 1 - i) % 256
    decreases k
  {
    PowPositive(k - 1 - i);
    if i < k - 1 {
      ByteAt(n / 256, k - 1, i);
      DivDiv(n, Pow256(k - 2 - i));
    }
  }

  lemma {:induction false} PowPositive(k: nat)
    ensures Pow256(k) > 0
  {
    if k > 0 { PowPositive(k - 1); }
  }

  function Digit(n: nat, weight: nat): Byte
    requires weight > 0
  {
    n / weight % 0x100
  }

  /** The two bytes of a length below 2^16. */
  function HalfWord(n: nat): Bytes {
    [n / 0x100 % 0x100, n % 0x100]
  }

  /** The eight bytes of a 64-bit number. */
  function Word(n: nat): Bytes {
    [Digit(n, 0x1_00_0000_0000_0000), Digit(n, 0x1_0000_0000_0000), Digit(n, 0x1_00_0000_0000),
     Digit(n, 0x1_0000_0000), Digit(n, 0x1_00_0000), Digit(n, 0x1_0000), Digit(n, 0x1_00), Digit(n, 1)]
  }

  lemma HalfWordBytes(n: nat)
    ensures BigEndian(n, 2) == HalfWord(n)
  {
    ByteAt(n, 2, 0);
    ByteAt(n, 2, 1);
    assert Pow256(1) == 0x100;
  }

  lemma WordBytes(n: nat)
    ensures BigEndian(n, 8) == Word(n)
  {
    assert Pow256(1) == 0x100;
    assert Pow256(2) == 0x1_0000;
    assert Pow256(3) == 0x1_00_0000;
    assert Pow256(4) == 0x1_0000_0000;
    assert Pow256(5) == 0x1_00_0000_0000;
    assert Pow256(6) == 0x1_0000_0000_0000;
    assert Pow256(7) == 0x1_00_0000_0000_0000;
    ByteAt(n, 8, 0);
    ByteAt(n, 8, 1);
    ByteAt(n, 8, 2);
    ByteAt(n, 8, 3);
    ByteAt(n, 8, 4);
    ByteAt(n, 8, 5);
    ByteAt(n, 8, 6);
    ByteAt(n, 8, 7);
  }

  /** Eight bytes tell 64-bit numbers apart. */
  lemma WordsDiffer(m: nat, n: nat)
    requires m < TWO_64 && n < TWO_64
    ensures BigEndian(m, 8) == BigEndian(n, 8) ==> m == n
  {
    WordSizes();
    NumberOfBigEndian(m, 8);
    NumberOfBigEndian(n, 8);
  }

  /** Two bytes tell 16-bit numbers apart. */
  lemma HalfWordsDiffer(m: nat, n: nat)
    requires m < TWO_16 && n < TWO_16
    ensures BigEndian(m, 2) == BigEndian(n, 2) ==> m == n
  {
    WordSizes();
    NumberOfBigEndian(m, 2);
    NumberOfBigEndian(n, 2);
  }

  /** uint64(x) for a signed x: two's complement. */
  function Unsigned(x: Int64): (n: nat)
    ensures n < TWO_64 && n == x % 0x1_0000_0000_0000_0000
  {
    if x < 0 then x + TWO_64 else x
  }

  /** int64(n) for an unsigned n. */
  function Signed(n: nat): (x: Int64)
    requires n < TWO_64
    ensures Unsigned(x) == n
  {
    if n >= TWO_63 then n - TWO_64 else n
  }

  // ---------------------------------------------------------------------- rows

  /** Each row behind its 8-byte length. */
  function EncodedRows(rows: seq<Bytes>): Bytes {
    if rows == [] then []
    else BigEndian(|rows[0]|, 8) + rows[0] + EncodedRows(rows[1..])
  }

  /** The rows fit the length words. */
  ghost predicate RowsFit(rows: seq<Bytes>) {
    forall r :: r in rows ==> |r| < TWO_64
  }

  lemma {:induction false} EncodedAppend(a: seq<Bytes>, b: seq<Bytes>)
    ensures EncodedRows(a + b) == EncodedRows(a) + EncodedRows(b)
  {
    if a == [] {
      assert a + b == b;
    } else {
      EncodedAppend(a[1..], b);
      assert (a + b)[1..] == a[1..] + b;
    }
  }

  /** The bytes the rows take. */
  function EncodedSize(rows: seq<Bytes>): nat {
    if rows == [] then 0 else 8 + |rows[0]| + EncodedSize(rows[1..])
  }

  /** Row i stands behind the rows before it, behind its own length. */
  lemma {:induction false} RowStandsAt(rows: seq<Bytes>, i: nat)
    requires i < |rows|
    ensures var b, at, row := EncodedRows(rows), EncodedSize(rows[..i]), rows[i];
            && at + 8 + |row| <= |b| == EncodedSize(rows)
            && b[at..at + 8] == Word(|row|) && b[at + 8..at + 8 + |row|] == row
  {
    EncodedAppend(rows[..i], rows[i..]);
    assert rows == rows[..i] + rows[i..];
    SizeIs(rows[..i]);
    SizeIs(rows);
    WordBytes(|rows[i]|);
    var front, row := EncodedRows(rows[..i]), rows[i];
    RowBehind(front, BigEndian(|row|, 8), row, EncodedRows(rows[i..][1..]));
  }

  lemma RowBehind(front: Bytes, word: Bytes, row: Bytes, rest: Bytes)
    requires |word| == 8
    ensures var b, at := front + (word + row + rest), |front|;
            at + 8 + |row| <= |b| && b[at..at + 8] == word && b[at + 8..at + 8 + |row|] == row
  {}

  lemma {:induction false} SizeIs(rows: seq<Bytes>)
    ensures |EncodedRows(rows)| == EncodedSize(rows)
  {
    if rows != [] { SizeIs(rows[1..]); }
  }

  method EncodeRows(rows: seq<Bytes>) returns (buf: Bytes)
    ensures buf == EncodedRows(rows)
  {
    buf := [];
    for i := 0 to |rows|
      invariant buf == EncodedRows(rows[..i])
    {
      EncodedAppend(rows[..i], [rows[i]]);
      assert rows[..i + 1] == rows[..i] + [rows[i]];
      assert EncodedRows([rows[i]]) == BigEndian(|rows[i]|, 8) + rows[i] + [];
      buf := buf + BigEndian(|rows[i]|, 8);
      buf := buf + rows[i];
    }
    assert rows[..|rows|] == rows;
  }

  /** Equal-length fronts of comparable strings are equal, and the rests comparable. */
  lemma CutFront(a: Bytes, b: Bytes, a': Bytes, b': Bytes)
    requires |a| == |a'| && a + b <= a' + b'
    ensures a == a' && b <= b'
  {
    var s, t := a + b, a' + b';
    assert forall i :: 0 <= i < |s| ==> s[i] == t[i];
    assert forall i :: 0 <= i < |a| ==> a[i] == s[i] && a'[i] == t[i];
    assert forall i :: 0 <= i < |b| ==> b[i] == s[|a| + i] && b'[i] == t[|a| + i];
  }

  /** A field behind its length: equal length words mean equal fields. */
  lemma CutField(w: Bytes, r: Bytes, x: Bytes, w': Bytes, r': Bytes, y: Bytes)
    requires |w| == |w'| && (w == w' ==> |r| == |r'|)
    requires w + r + x <= w' + r' + y
    ensures w == w' && r == r' && x <= y
    ensures w + r + x == w' + r' + y ==> x == y
  {
    assert w + r + x == w + (r + x) && w' + r' + y == w' + (r' + y);
    CutFront(w, r + x, w', r' + y);
    CutFront(r, x, r', y);
  }

  /** An encoding determines its first row and the rest. */
  lemma FirstRowCut(r: Bytes, x: Bytes, r': Bytes, y: Bytes)
    requires |r| < TWO_64 && |r'| < TWO_64
    requires BigEndian(|r|, 8) + r + x == BigEndian(|r'|, 8) + r' + y
    ensures r == r' && x == y
  {
    WordsDiffer(|r|, |r'|);
    CutField(BigEndian(|r|, 8), r, x, BigEndian(|r'|, 8), r', y);
  }

  /** The encoding is injective: no two row lists share one. */
  lemma {:induction false} EncodedRowsInjective(a: seq<Bytes>, b: seq<Bytes>)
    requires RowsFit(a) && RowsFit(b) && EncodedRows(a) == EncodedRows(b)
    ensures a == b
  {
    if a != [] && b != [] {
      var ra, rb := EncodedRows(a[1..]), EncodedRows(b[1..]);
      assert a[0] in a && b[0] in b;
      FirstRowCut(a[0], ra, b[0], rb);
      assert RowsFit(a[1..]) && RowsFit(b[1..]);
      EncodedRowsInjective(a[1..], b[1..]);
      assert a == [a[0]] + a[1..] && b == [b[0]] + b[1..];
    }
  }

  datatype RowError = TruncatedLength | TruncatedData

  /** The first row's length word promises more bytes than follow. */
  ghost predicate StartsTruncated(b: Bytes) {
    b != [] && (|b| < 8 || |b| < 8 + Number(b[..8]))
  }

  lemma TruncatedIsNoEncoding(b: Bytes, rows: seq<Bytes>)
    requires StartsTruncated(b) && RowsFit(rows)
    ensures EncodedRows(rows) != b
  {
    if EncodedRows(rows) == b {
      assert rows[0] in rows;
      WordSizes();
      assert b[..8] == BigEndian(|rows[0]|, 8);
      NumberOfBigEndian(|rows[0]|, 8);
      assert false;
    }
  }

  /** An encoding that begins with given rows continues with an encoding. */
  lemma {:induction false} EncodingSplits(front: seq<Bytes>, rest: Bytes, rows: seq<Bytes>)
    requires RowsFit(front) && RowsFit(rows) && EncodedRows(rows) == EncodedRows(front) + rest
    ensures exists more :: RowsFit(more) && EncodedRows(more) == rest
  {
    if front == [] {
      assert EncodedRows(rows) == rest;
    } else {
      var f, r := EncodedRows(front[1..]), EncodedRows(rows[1..]);
      assert front[0] in front && rows[0] in rows;
      var whole := BigEndian(|front[0]|, 8) + front[0] + (f + rest);
      assert EncodedRows(front) + rest == whole;
      FirstRowCut(rows[0], r, front[0], f + rest);
      EncodingSplits(front[1..], rest, rows[1..]);
    }
  }

  /** A length word and as many bytes decode to one more row. */
  lemma NextRow(b: Bytes, rows: seq<Bytes>, start: nat, ln: nat)
    requires start + 8 + ln <= |b| && ln == Number(b[start..start + 8])
    requires RowsFit(rows) && EncodedRows(rows) == b[..start]
    ensures var row := b[start + 8..start + 8 + ln];
            RowsFit(rows + [row]) && EncodedRows(rows + [row]) == b[..start + 8 + ln]
  {
    var word, row := b[start..start + 8], b[start + 8..start + 8 + ln];
    WordSizes();
    NumberBound(word);
    BigEndianOfNumber(word);
    EncodedAppend(rows, [row]);
    assert EncodedRows([row]) == word + row + [];
    assert b[..start + 8 + ln] == b[..start] + (word + row);
  }

  ghost predicate BreaksAfter(b: Bytes, rows: seq<Bytes>, start: int, fault: RowError) {
    && 0 <= start < |b| && EncodedRows(rows) == b[..start] && StartsTruncated(b[start..])
    && fault == if |b| - start < 8 then TruncatedLength else TruncatedData
  }

  /** The bytes break off behind whole rows: in a length word, or in the row it announces. */
  ghost predicate RowsBlamed(b: Bytes, fault: RowError) {
    exists rows, start :: BreaksAfter(b, rows, start, fault)
  }

  /** Recovers the rows, or refuses bytes no row list encodes to. */
  method DecodeRows(b: Bytes) returns (r: Result<seq<Bytes>, RowError>)
    ensures r.Ok? ==> RowsFit(r.value) && EncodedRows(r.value) == b
    ensures r.Err? ==> (forall rows :: RowsFit(rows) ==> EncodedRows(rows) != b) && RowsBlamed(b, r.error)
  {
    var rows: seq<Bytes> := [];
    var i := 0;
    while i < |b|
      invariant 0 <= i <= |b| && RowsFit(rows) && EncodedRows(rows) == b[..i]
    {
      ghost var start := i;
      if i + 8 > |b| {
        RefuseFrom(b, rows, start);
        assert BreaksAfter(b, rows, start, TruncatedLength);
        return Err(TruncatedLength);
      }
      var ln := Number(b[i..i + 8]);
      i := i + 8;
      assert b[start..][..8] == b[start..i];
      if i + ln > |b| {
        RefuseFrom(b, rows, start);
        assert BreaksAfter(b, rows, start, TruncatedData);
        return Err(TruncatedData);
      }
      NextRow(b, rows, start, ln);
      rows := rows + [b[i..i + ln]];
      i := i + ln;
    }
    assert b[..|b|] == b;
    return Ok(rows);
  }

  lemma RefuseFrom(b: Bytes, front: seq<Bytes>, start: nat)
    requires start < |b| && RowsFit(front) && EncodedRows(front) == b[..start] && StartsTruncated(b[start..])
    ensures forall rows :: RowsFit(rows) ==> EncodedRows(rows) != b
  {
    forall rows | RowsFit(rows) ensures EncodedRows(rows) != b {
      if EncodedRows(rows) == b {
        assert b == b[..start] + b[start..];
        EncodingSplits(front, b[start..], rows);
        var more :| RowsFit(more) && EncodedRows(more) == b[start..];
        TruncatedIsNoEncoding(b[start..], more);
      }
    }
  }
}
