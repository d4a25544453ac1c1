/** copyfile: the source storage server sends the file in chunks, the naming server keeps them in a
    temporary file and sends them on, and the destination storage server writes them. */
module ChunkedCopy {

  newtype Byte = b: int | 0 <= b < 256

  function Zeros(n: nat): seq<Byte> { seq(n, _ => 0) }

  /** The number of chunks that hold n bytes. */
  function Chunks(n: nat): nat { (n + 8191) / 8192 }

  /** The bytes followed by zeros up to the next multiple of the chunk size. */
  function Padded(s: seq<Byte>): seq<Byte> {
    s + Zeros(8192 * Chunks(|s|) - |s|)
  }

  lemma PaddedChunk(a: seq<Byte>, b: seq<Byte>)
    requires |a| % 8192 == 0 && 0 < |b| <= 8192
    ensures Padded(a) == a && Padded(a + b) == a + b + Zeros(8192 - |b|)
  {
    assert Chunks(|a + b|) == |a| / 8192 + 1;
  }

  // ---------- The float conversion of the size ----------

  /** The gap between neighbouring floats at n: a float has 24 significant bits. */
  function Gap(n: nat): nat {
    if n < 0x100_0000 then 1 else 2 * Gap(n / 2)
  }

  predicate IsFloat(n: nat) {
    Gap(n) > 0 && n % Gap(n) == 0
  }

  /** n rounded to a multiple of u, the even multiple on a tie. */
  function RoundTo(n: nat, u: nat): nat
    requires u > 0
  {
    var q, r := n / u, n % u;
    if 2 * r < u || (2 * r == u && q % 2 == 0) then q * u else q * u + u
  }

  lemma {:induction false} GapPositive(n: nat)
    ensures Gap(n) > 0
  {
    if n >= 0x100_0000 { GapPositive(n / 2); }
  }

  /** (float)n for an int n that is not negative. */
  function ToFloat(n: nat): nat {
    GapPositive(n);
    RoundTo(n, Gap(n))
  }

  predicate IsInt(n: nat) { n < 0x8000_0000 }

  lemma {:induction false} GapTable(n: nat)
    requires n <= 0x8000_0000
    ensures Gap(n) ==
      if n < 0x100_0000 then 1 else if n < 0x200_0000 then 2 else if n < 0x400_0000 then 4
      else if n < 0x800_0000 then 8 else if n < 0x1000_0000 then 16 else if n < 0x2000_0000 then 32
      else if n < 0x4000_0000 then 64 else if n < 0x8000_0000 then 128 else 256
  {
    if n >= 0x100_0000 { GapTable(n / 2); }
  }

  lemma Multiples(e: int, u: nat)
    ensures e >= 1 ==> e * u >= u
    ensures e <= -1 ==> e * u + u <= 0
  {
    if e >= 1 { assert e * u == u + (e - 1) * u; }
    if e <= -1 { assert e * u + u == (e + 1) * u; }
  }

  lemma Divided(n: nat, u: nat) returns (q: nat, r: nat)
    requires u > 0
    ensures n == q * u + r && r < u && q == n / u && r == n % u
  {
    q, r := n / u, n % u;
  }

  lemma RoundIs(n: nat, u: nat, q: nat, r: nat)
    requires u > 0 && n == q * u + r && r < u
    ensures RoundTo(n, u) == if 2 * r < u || (2 * r == u && q % 2 == 0) then q * u else q * u + u
  {
    var p, o := Divided(n, u);
    Multiples(q - p, u);
    assert (q - p) * u == q * u - p * u;
    assert q == p;
  }

  lemma Distributes(a: int, b: int, u: int)
    ensures (a + b) * u == a * u + b * u
  {}

  /** Rounding leaves a whole even number of gaps alone. */
  lemma RoundAbove(n: nat, u: nat, k: nat, d: nat)
    requires u > 0 && k % 2 == 0 && n == k * u + d
    ensures RoundTo(n, u) == k * u + RoundTo(d, u)
  {
    var q, r := Divided(d, u);
    RoundIs(d, u, q, r);
    Distributes(k, q, u);
    RoundIs(n, u, k + q, r);
  }

  lemma RoundWithin(d: nat, u: nat, m: nat)
    requires u > 0 && d <= m * u
    ensures RoundTo(d, u) <= m * u
    ensures RoundTo(d, u) == 0 <==> d <= u / 2
  {
    var q, r := Divided(d, u);
    RoundIs(d, u, q, r);
    Multiples(m - q, u);
    Multiples(q, u);
    assert (m - q) * u == m * u - q * u;
  }

  lemma {:induction false} GapScales(n: nat, w: nat) returns (j: nat)
    requires n <= w
    ensures j >= 1 && Gap(w) == j * Gap(n)
  {
    GapPositive(w);
    if n < 0x100_0000 { j := Gap(w); }
    else { j := GapScales(n / 2, w / 2); }
  }

  /** From one gap to the next there are floats with the full 24 bits only. */
  lemma {:induction false} GapRange(n: nat)
    ensures n < 0x100_0000 * Gap(n)
    ensures Gap(n) > 1 ==> 0x80_0000 * Gap(n) <= n
  {
    if n >= 0x100_0000 { GapRange(n / 2); }
  }

  lemma MultipleIsFloat(v: nat, j: nat)
    requires v == j * Gap(v)
    ensures IsFloat(v)
  {
    GapPositive(v);
    Remainder(v, Gap(v), j);
  }

  lemma Remainder(v: nat, u: nat, j: nat)
    requires u > 0 && v == j * u
    ensures v % u == 0
  {
    var q, r := Divided(v, u);
    Multiples(j - q, u);
    assert (j - q) * u == j * u - q * u;
  }

  lemma Significand(v: nat) returns (a: nat)
    requires IsFloat(v)
    ensures v == a * Gap(v)
  {
    var r;
    a, r := Divided(v, Gap(v));
  }

  lemma Associates(a: int, j: int, u: int)
    ensures a * (j * u) == (a * j) * u
  {}

  lemma MultipleBelow(a: int, q: int, u: nat, r: nat)
    requires a * u <= q * u + r && r < u
    ensures a * u <= q * u
  {
    Multiples(a - q, u);
    Distributes(a, -q, u);
  }

  lemma MultipleAbove(a: int, q: int, u: nat, r: nat)
    requires a * u >= q * u + r && 0 < r < u
    ensures a * u >= q * u + u
  {
    Multiples(a - q - 1, u);
    Distributes(a, -q - 1, u);
  }

  /** Rounding down gives a float. */
  lemma DownIsFloat(n: nat, q: nat, r: nat)
    requires n == q * Gap(n) + r
    ensures IsFloat(q * Gap(n))
  {
    var v := q * Gap(n);
    var j := GapScales(v, n);
    Associates(q, j, Gap(v));
    MultipleIsFloat(v, q * j);
  }

  /** No float lies between n and n rounded down. */
  lemma NoneBelow(n: nat, q: nat, r: nat, w: nat)
    requires n == q * Gap(n) + r && r < Gap(n) && IsFloat(w) && w <= n
    ensures w <= q * Gap(n)
  {
    var u := Gap(n);
    var j := GapScales(w, n);
    var a := Significand(w);
    if j == 1 {
      MultipleBelow(a, q, u, r);
    } else {
      GapRange(w);
      GapRange(n);
      GapPositive(w);
      Multiples(j - 1, Gap(w));
      Distributes(j, -1, Gap(w));
      MultipleBelow(0x80_0000, q, u, r);
    }
  }

  /** No float lies between n and n rounded up. */
  lemma NoneAbove(n: nat, q: nat, r: nat, w: nat)
    requires n == q * Gap(n) + r && 0 < r < Gap(n) && IsFloat(w) && w >= n
    ensures w >= q * Gap(n) + Gap(n)
  {
    var j := GapScales(n, w);
    var a := Significand(w);
    Associates(a, j, Gap(n));
    MultipleAbove(a * j, q, Gap(n), r);
  }

  /** Rounding up gives a float. */
  lemma UpIsFloat(n: nat, q: nat, r: nat)
    requires n == q * Gap(n) + r && 0 < r < Gap(n)
    ensures IsFloat(q * Gap(n) + Gap(n))
  {
    var u := Gap(n);
    var v := q * u + u;
    var j := GapScales(n, v);
    Distributes(q, 1, u);
    GapRange(n);
    GapRange(v);
    MultipleAbove(0x100_0000, q, u, r);
    if j == 1 { MultipleIsFloat(v, q + 1); }
    else {
      Multiples(j - 1, u);
      Distributes(j, -1, u);
      MultipleIsFloat(v, 0x80_0000);
    }
  }

  /** ToFloat gives a float, and no float is nearer. */
  lemma ToFloatIsNearest(n: nat, w: nat)
    ensures IsFloat(ToFloat(n))
    ensures IsFloat(w) && w <= n ==> n - w >= ToFloat(n) - n && n - w >= n - ToFloat(n)
    ensures IsFloat(w) && w >= n ==> w - n >= ToFloat(n) - n && w - n >= n - ToFloat(n)
  {
    GapPositive(n);
    var q, r := Divided(n, Gap(n));
    RoundIs(n, Gap(n), q, r);
    DownIsFloat(n, q, r);
    if r > 0 { UpIsFloat(n, q, r); }
    if IsFloat(w) && w <= n { NoneBelow(n, q, r, w); }
    if IsFloat(w) && w >= n && r > 0 { NoneAbove(n, q, r, w); }
  }

  /** Of two nearest floats it gives the one with the even significand. */
  lemma TieToEven(n: nat) returns (e: nat)
    requires Gap(n) > 0 && 2 * (n % Gap(n)) == Gap(n)
    ensures ToFloat(n) == (2 * e) * Gap(n)
  {
    var q, r := Divided(n, Gap(n));
    RoundIs(n, Gap(n), q, r);
    e := (q + 1) / 2;
    Distributes(q, 1, Gap(n));
    assert 2 * e == if q % 2 == 0 then q else q + 1;
  }

  /** For an int the gap divides the chunk size an even number of times. */
  lemma GapDividesChunk(n: nat) returns (m: nat)
    requires IsInt(n)
    ensures Gap(n) * m == 8192 && m % 2 == 0
  {
    GapTable(n);
    m := if n < 0x100_0000 then 8192 else if n < 0x200_0000 then 4096 else if n < 0x400_0000 then 2048
      else if n < 0x800_0000 then 1024 else if n < 0x1000_0000 then 512 else if n < 0x2000_0000 then 256
      else if n < 0x4000_0000 then 128 else 64;
  }

  /** The chunk count the naming server expects for a file of n bytes. */
  function Expected(n: nat): nat { Chunks(ToFloat(n)) }

  /** The expected count is never too large. It is one too small exactly when the file ends within half a
      gap above a chunk boundary. */
  lemma ExpectedIs(n: nat)
    requires IsInt(n)
    ensures Expected(n) == Chunks(n) <==> n % 8192 == 0 || n % 8192 > Gap(n) / 2
    ensures Expected(n) != Chunks(n) ==> Expected(n) == Chunks(n) - 1
  {
    var e := FloatParts(n);
    ChunksOf(ToFloat(n), n / 8192, e);
    ChunksOf(n, n / 8192, n % 8192);
  }

  lemma ChunksOf(n: nat, b: nat, e: nat)
    requires n == 8192 * b + e && e <= 8192
    ensures Chunks(n) == if e == 0 then b else b + 1
  {}

  lemma FloatParts(n: nat) returns (e: nat)
    requires IsInt(n)
    ensures ToFloat(n) == 8192 * (n / 8192) + e && e <= 8192
    ensures e == 0 <==> n % 8192 <= Gap(n) / 2
  {
    GapPositive(n);
    var u, b, d := Gap(n), n / 8192, n % 8192;
    var m := GapDividesChunk(n);
    var k := WholeGaps(u, m, b);
    RoundAbove(n, u, k, d);
    RoundWithin(d, u, m);
    e := RoundTo(d, u);
  }

  lemma WholeGaps(u: nat, m: nat, b: nat) returns (k: nat)
    requires u * m == 8192 && m % 2 == 0
    ensures k * u == 8192 * b && k % 2 == 0
  {
    var h := m / 2;
    k := 2 * (h * b);
    assert k == m * b;
    assert k * u == (u * m) * b;
  }

  /** Up to 2 to the power 24 the two counts agree. */
  lemma SmallFilesAgree(n: nat)
    requires n <= 0x100_0000
    ensures Expected(n) == Chunks(n)
  {
    GapTable(n);
    ExpectedIs(n);
  }

  /** At the next size they do not. */
  lemma FirstDisagreement()
    ensures Expected(0x100_0001) == Chunks(0x100_0001) - 1
  {
    GapTable(0x100_0001);
    ExpectedIs(0x100_0001);
  }

  // ---------- The three loops ----------

  function Least(a: nat, b: nat): nat { if a < b then a else b }

  /** A file opened for reading. */
  class Reader {
    const data: seq<Byte>
    var pos: nat

    constructor (data: seq<Byte>)
      ensures this.data == data && pos == 0
    {
      this.data := data;
      pos := 0;
    }

    method Read(buffer: array<Byte>) returns (r: nat)
      requires pos <= |data|
      modifies this`pos, buffer
      ensures r == Least(buffer.Length, |data| - old(pos)) && pos == old(pos) + r
      ensures buffer[..] == data[old(pos)..pos] + old(buffer[..])[r..]
    {
      r := Least(buffer.Length, |data| - pos);
      forall i | 0 <= i < r { buffer[i] := data[pos + i]; }
      pos := pos + r;
    }
  }

  method Clear(buffer: array<Byte>)
    modifies buffer
    ensures buffer[..] == Zeros(buffer.Length)
  {
    forall i | 0 <= i < buffer.Length { buffer[i] := 0; }
  }

  /** The part of a file from a to b, which the buffer holds: a chunk, or the rest of the file. */
  predicate IsNext(file: seq<Byte>, a: nat, b: nat) {
    && a <= b <= |file| && b - a <= 8192
    && (b - a < 8192 ==> b == |file|)
    && (a < b ==> a % 8192 == 0)
  }

  /** What has been sent when the buffer holds the part from a to b. */
  function SentBefore(file: seq<Byte>, a: nat, b: nat): seq<Byte>
    requires a <= b <= |file|
  {
    if a < b then file[..a] else Padded(file)
  }

  predicate ChunkBoundary(file: seq<Byte>, b: nat) {
    b <= |file| && (b % 8192 == 0 || b == |file|)
  }

  lemma {:induction false} ChunkSent(file: seq<Byte>, a: nat, b: nat)
    requires IsNext(file, a, b) && a < b
    ensures ChunkBoundary(file, b)
    ensures forall c {:trigger IsNext(file, b, c)} :: IsNext(file, b, c) ==>
      SentBefore(file, a, b) + (file[a..b] + Zeros(8192 - (b - a))) == SentBefore(file, b, c)
  {
    PaddedChunk(file[..a], file[a..b]);
    assert file[..a] + file[a..b] == file[..b];
    if b == |file| { assert file[..b] == file; }
  }

  method Fill(f: Reader, buffer: array<Byte>) returns (r: nat)
    requires ChunkBoundary(f.data, f.pos)
    requires buffer[..] == Zeros(8192)
    modifies f`pos, buffer
    ensures f.pos == old(f.pos) + r && IsNext(f.data, old(f.pos), f.pos)
    ensures buffer[..] == f.data[old(f.pos)..f.pos] + Zeros(8192 - r)
  {
    assert buffer.Length == |buffer[..]|;
    r := f.Read(buffer);
    assert Zeros(8192)[r..] == Zeros(8192 - r);
  }

  /** The loop of process_file, and of the naming server when it sends the temporary file on: a buffer is
      sent for every read, with what the read left of the zeros in it. */
  method SendFile(file: seq<Byte>) returns (sent: seq<Byte>)
    ensures sent == Padded(file)
  {
    var f := new Reader(file);
    var buffer := new Byte[8192](_ => 0);
    assert buffer[..] == Zeros(8192);
    var r := Fill(f, buffer);
    sent := [];
    while r > 0
      invariant fresh(f) && fresh(buffer) && f.data == file && buffer.Length == 8192
      invariant r <= f.pos && IsNext(file, f.pos - r, f.pos)
      invariant buffer[..] == file[f.pos - r..f.pos] + Zeros(8192 - r)
      invariant sent == SentBefore(file, f.pos - r, f.pos)
      decreases |file| - f.pos, r
    {
      sent := sent + buffer[..];
      r := Refill(f, buffer, r);
    }
  }

  /** What a send leaves to do in the round: the buffer is cleared and filled from the file. */
  method Refill(f: Reader, buffer: array<Byte>, r: nat) returns (more: nat)
    requires 0 < r <= f.pos && IsNext(f.data, f.pos - r, f.pos) && buffer.Length == 8192
    modifies f`pos, buffer
    ensures f.pos == old(f.pos) + more && IsNext(f.data, old(f.pos), f.pos)
    ensures buffer[..] == f.data[old(f.pos)..f.pos] + Zeros(8192 - more)
    ensures SentBefore(f.data, old(f.pos) - r, old(f.pos)) + (f.data[old(f.pos) - r..old(f.pos)] + Zeros(8192 - r))
            == SentBefore(f.data, old(f.pos), f.pos)
  {
    ChunkSent(f.data, f.pos - r, f.pos);
    Clear(buffer);
    more := Fill(f, buffer);
  }

  /** The receiving end of a connection. */
  class Socket {
    var pending: seq<Byte>

    constructor (pending: seq<Byte>)
      ensures this.pending == pending
    {
      this.pending := pending;
    }

    method Receive(buffer: array<Byte>)
      requires buffer.Length <= |pending|
      modifies this, buffer
      ensures buffer[..] == old(pending)[..buffer.Length] && pending == old(pending)[buffer.Length..]
    {
      forall i | 0 <= i < buffer.Length { buffer[i] := pending[i]; }
      pending := pending[buffer.Length..];
    }
  }

  /** The receiving loop of the naming server and of receive_file. */
  method ReceiveChunks(socket: Socket, chunks: nat) returns (file: seq<Byte>)
    requires 8192 * chunks <= |socket.pending|
    modifies socket
    ensures file == old(socket.pending)[..8192 * chunks]
    ensures socket.pending == old(socket.pending)[8192 * chunks..]
  {
    var buffer := new Byte[8192](_ => 0);
    file := [];
    for i := 0 to chunks
      invariant fresh(buffer)
      invariant file == old(socket.pending)[..8192 * i]
      invariant socket.pending == old(socket.pending)[8192 * i..]
    {
      socket.Receive(buffer);
      file := file + buffer[..];
    }
  }

  lemma PaddedIs(s: seq<Byte>)
    ensures |Padded(s)| == 8192 * Chunks(|s|) && Padded(s)[..|s|] == s
    ensures forall i | |s| <= i < |Padded(s)| :: Padded(s)[i] == 0
    ensures Padded(s) == s <==> |s| % 8192 == 0
  {}

  /** The bytes the naming server takes for the file. */
  function Taken(file: seq<Byte>): seq<Byte>
    requires IsInt(|file|)
  {
    PaddedIs(file);
    ExpectedIs(|file|);
    Padded(file)[..8192 * Expected(|file|)]
  }

  lemma TakenIs(file: seq<Byte>)
    requires IsInt(|file|)
    ensures Taken(file) == Padded(file) <==> Expected(|file|) == Chunks(|file|)
    ensures Taken(file) != Padded(file) ==>
      Chunks(|file|) > 0 && Taken(file) == file[..8192 * (Chunks(|file|) - 1)]
    ensures Padded(Taken(file)) == Taken(file)
  {
    ExpectedIs(|file|);
    WholeChunks(file, Expected(|file|));
  }

  lemma WholeChunks(file: seq<Byte>, k: nat)
    requires k <= Chunks(|file|) <= k + 1
    ensures 8192 * k <= |Padded(file)|
    ensures var part := Padded(file)[..8192 * k];
      && (part == Padded(file) <==> k == Chunks(|file|))
      && (k < Chunks(|file|) ==> 8192 * k <= |file| && part == file[..8192 * k])
      && Padded(part) == part
  {
    PaddedIs(file);
    var part := Padded(file)[..8192 * k];
    assert |part| == 8192 * k;
    if k < Chunks(|file|) {
      assert part == file[..8192 * k];
    }
    PaddedIs(part);
  }

  /** From the source file to the copy through the three loops. The copy is the file followed by zeros up
      to a whole chunk exactly when the counts agree; when they do not, it lacks the last chunk, which
      stays unread in the connection to the source server. */
  method CopyFile(file: seq<Byte>) returns (copied: seq<Byte>, unread: seq<Byte>)
    requires IsInt(|file|)
    ensures copied == Taken(file) && copied + unread == Padded(file)
    ensures copied == Padded(file) <==> |file| % 8192 == 0 || |file| % 8192 > Gap(|file|) / 2
    ensures copied != Padded(file) ==> |unread| == 8192 && copied <= file
  {
    var sent := SendFile(file);
    var source := new Socket(sent);
    PaddedIs(file);
    ExpectedIs(|file|);
    var chunks := Expected(|file|);
    var temp := ReceiveChunks(source, chunks);
    TakenIs(file);
    PaddedIs(temp);
    var again := SendFile(temp);
    var destination := new Socket(again);
    copied := ReceiveChunks(destination, chunks);
    unread := source.pending;
  }

  /** For a size up to 2 to the power 24 nothing is lost. */
  lemma SmallFilesCopied(file: seq<Byte>)
    requires |file| <= 0x100_0000
    ensures Taken(file) == Padded(file)
  {
    SmallFilesAgree(|file|);
    TakenIs(file);
  }
}
