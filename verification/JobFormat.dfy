/** Worker results, the bytes a worker signs, the consensus journal and hex decoding. Strings are
    their UTF-8 bytes. */
module JobFormat {
  import opened Words

  type Str = seq<byte>

  datatype WorkerResult = WorkerResult(
    workerId: Str, jobId: Str, status: Str, instructions: u64, resultHash: Str, chunkHashes: seq<Str>,
    outputHex: Option<Str>, trap: Option<Str>, pubkeyHex: Option<Str>, sigHex: Option<Str>)

  // ---------------------------------------------------------------- the signed message

  /** A 4-byte length (truncated like `as u32`) followed by the bytes. */
  function Put(b: Str): (s: seq<byte>)
    ensures |s| == 4 + |b|
  {
    ToLE(|b|, 4) + b
  }

  function PutAll(bs: seq<Str>): seq<byte> {
    if bs == [] then [] else Put(bs[0]) + PutAll(bs[1..])
  }

  function OrEmpty(s: Option<Str>): Str {
    if s.Some? then s.value else []
  }

  /** Every field but key and signature; the chunk list carries no count of its own. */
  function SigningMessage(r: WorkerResult): seq<byte> {
    Put(r.workerId) + (Put(r.jobId) + (Put(r.status) + (ToLE(r.instructions, 8) + (Put(r.resultHash)
    + PutAll(r.chunkHashes + [OrEmpty(r.outputHex), OrEmpty(r.trap)])))))
  }

  /** Every field is short enough for its 32-bit length prefix. */
  ghost predicate FieldsFit(r: WorkerResult) {
    && |r.workerId| < TWO32 && |r.jobId| < TWO32 && |r.status| < TWO32 && |r.resultHash| < TWO32
    && |OrEmpty(r.outputHex)| < TWO32 && |OrEmpty(r.trap)| < TWO32
    && forall i :: 0 <= i < |r.chunkHashes| ==> |r.chunkHashes[i]| < TWO32
  }

  /** Equality of everything signed, an absent output or trap counting as an empty one. */
  predicate SameSigned(r: WorkerResult, s: WorkerResult) {
    && r.workerId == s.workerId && r.jobId == s.jobId && r.status == s.status
    && r.instructions == s.instructions && r.resultHash == s.resultHash && r.chunkHashes == s.chunkHashes
    && OrEmpty(r.outputHex) == OrEmpty(s.outputHex) && OrEmpty(r.trap) == OrEmpty(s.trap)
  }

  /** A length-prefixed field can be cut off the front in one way only. */
  lemma PutInjective(a: Str, s: seq<byte>, b: Str, t: seq<byte>)
    requires |a| < TWO32 && |b| < TWO32
    requires Put(a) + s == Put(b) + t
    ensures a == b && s == t
  {
    hide ToLE;
    assert Put(a) + s == ToLE(|a|, 4) + (a + s);
    assert Put(b) + t == ToLE(|b|, 4) + (b + t);
    AppendInjective(ToLE(|a|, 4), a + s, ToLE(|b|, 4), b + t);
    Pow256Values();
    ToLEInjective(|a|, |b|, 4);
    AppendInjective(a, s, b, t);
  }

  /** A list of fields is recovered whole although its length is not written down. */
  lemma {:induction false} PutAllInjective(x: seq<Str>, y: seq<Str>)
    requires forall i :: 0 <= i < |x| ==> |x[i]| < TWO32
    requires forall i :: 0 <= i < |y| ==> |y[i]| < TWO32
    requires PutAll(x) == PutAll(y)
    ensures x == y
  {
    if x != [] && y != [] {
      PutInjective(x[0], PutAll(x[1..]), y[0], PutAll(y[1..]));
      PutAllInjective(x[1..], y[1..]);
      assert x == [x[0]] + x[1..] && y == [y[0]] + y[1..];
    }
  }

  /** Two results have the same signing message if and only if they agree on everything signed. */
  lemma SigningMessageBinds(r: WorkerResult, s: WorkerResult)
    requires FieldsFit(r) && FieldsFit(s)
    ensures SigningMessage(r) == SigningMessage(s) <==> SameSigned(r, s)
  {
    hide Put, PutAll, ToLE;
    if SigningMessage(r) == SigningMessage(s) {
      var (x, y) := (r.chunkHashes + [OrEmpty(r.outputHex), OrEmpty(r.trap)],
                     s.chunkHashes + [OrEmpty(s.outputHex), OrEmpty(s.trap)]);
      var (r5, s5) := (Put(r.resultHash) + PutAll(x), Put(s.resultHash) + PutAll(y));
      var (r4, s4) := (ToLE(r.instructions, 8) + r5, ToLE(s.instructions, 8) + s5);
      var (r3, s3) := (Put(r.status) + r4, Put(s.status) + s4);
      var (r2, s2) := (Put(r.jobId) + r3, Put(s.jobId) + s3);
      PutInjective(r.workerId, r2, s.workerId, s2);
      PutInjective(r.jobId, r3, s.jobId, s3);
      PutInjective(r.status, r4, s.status, s4);
      AppendInjective(ToLE(r.instructions, 8), r5, ToLE(s.instructions, 8), s5);
      Pow256Values();
      ToLEInjective(r.instructions, s.instructions, 8);
      PutInjective(r.resultHash, PutAll(x), s.resultHash, PutAll(y));
      PutAllInjective(x, y);
      SplitLastTwo(r.chunkHashes, OrEmpty(r.outputHex), OrEmpty(r.trap),
                   s.chunkHashes, OrEmpty(s.outputHex), OrEmpty(s.trap));
    }
  }

  lemma SplitLastTwo(x: seq<Str>, a: Str, b: Str, y: seq<Str>, c: Str, d: Str)
    requires x + [a, b] == y + [c, d]
    ensures x == y && a == c && b == d
  {
    var n := |x|;
    assert |x + [a, b]| == n + 2 && |y + [c, d]| == |y| + 2;
    AppendInjective(x, [a, b], y, [c, d]);
    assert [a, b][0] == [c, d][0] && [a, b][1] == [c, d][1];
  }

  // ---------------------------------------------------------------- why the length bound is needed

  function Zeros(n: nat): (s: seq<byte>)
    ensures |s| == n
  {
    seq<byte>(n, _ => 0)
  }

  lemma ZeroLength()
    ensures ToLE(0, 4) == Zeros(4)
    ensures ToLE(TWO32, 4) == Zeros(4)
    ensures ToLE(0, 8) == Zeros(8)
  {
    assert Pow256(0) == 1 && Pow256(1) == 0x100 && Pow256(2) == 0x1_0000 && Pow256(3) == 0x100_0000;
    forall i | 0 <= i < 4
      ensures TWO32 / Pow256(i) % 256 == 0
    {
      assert i == 0 || i == 1 || i == 2 || i == 3;
    }
    forall i | 0 <= i < 8
      ensures 0 / Pow256(i) % 256 == 0
    {
      ModUnique(0, Pow256(i), 0, 0);
    }
  }

  lemma ZerosAdd(m: nat, n: nat)
    ensures Zeros(m) + Zeros(n) == Zeros(m + n)
  {
  }

  function Empties(n: nat): (x: seq<Str>)
    ensures |x| == n
  {
    seq<Str>(n, _ => [])
  }

  lemma {:induction false} PutEmpties(n: nat)
    ensures PutAll(Empties(n)) == Zeros(4 * n)
  {
    hide ToLE;
    if n > 0 {
      PutEmpties(n - 1);
      assert Empties(n)[1..] == Empties(n - 1);
      ZeroLength();
      assert Put([]) == Zeros(4);
      ZerosAdd(4, 4 * (n - 1));
    }
  }

  function Blank(workerId: Str, chunkHashes: seq<Str>): WorkerResult {
    WorkerResult(workerId, [], [], 0, [], chunkHashes, None, None, None, None)
  }

  lemma BlankMessage(workerId: Str, n: nat)
    ensures SigningMessage(Blank(workerId, Empties(n))) == Put(workerId) + Zeros(4 * n + 28)
  {
    hide ToLE, Put, PutAll;
    var (e, r) := (Empties(n), Blank(workerId, Empties(n)));
    ZeroLength();
    PutIsZeros();
    assert e + [[], []] == Empties(n + 2);
    PutEmpties(n + 2);
    ZerosAdd(4, 4 * (n + 2));
    ZerosAdd(8, 4 + 4 * (n + 2));
    ZerosAdd(4, 12 + 4 * (n + 2));
    ZerosAdd(4, 16 + 4 * (n + 2));
  }

  lemma PutIsZeros()
    ensures Put([]) == Zeros(4)
  {
    ZeroLength();
  }

  /** With a field of 2^32 bytes the prefix wraps to zero, and two different results share one
      message: a worker id of 2^32 zero bytes against 2^30 empty chunk hashes. */
  lemma LongFieldsCollide()
    ensures var (r, s) := (Blank(Zeros(TWO32), []), Blank([], Empties(0x4000_0000)));
            !SameSigned(r, s) && SigningMessage(r) == SigningMessage(s)
  {
    hide ToLE, SigningMessage;
    BlankMessage(Zeros(TWO32), 0);
    assert Empties(0) == [];
    BlankMessage([], 0x4000_0000);
    ZeroLength();
    assert Put(Zeros(TWO32)) == Zeros(4) + Zeros(TWO32);
    assert Put([]) == Zeros(4) + [];
    ZerosAdd(4, TWO32);
    ZerosAdd(4 + TWO32, 28);
    ZerosAdd(4, 4 * 0x4000_0000 + 28);
  }

  /** `signing_message`: appends field after field. */
  method BuildSigningMessage(r: WorkerResult) returns (m: seq<byte>)
    ensures m == SigningMessage(r)
  {
    hide ToLE, Put;
    var fields := r.chunkHashes + [OrEmpty(r.outputHex), OrEmpty(r.trap)];
    m := Put(r.workerId) + Put(r.jobId) + Put(r.status) + ToLE(r.instructions, 8) + Put(r.resultHash);
    ghost var head := m;
    assert fields[0..] == fields;
    for i := 0 to |fields|
      invariant head + PutAll(fields) == m + PutAll(fields[i..])
    {
      assert fields[i..][0] == fields[i] && fields[i..][1..] == fields[i + 1..];
      assert m + (Put(fields[i]) + PutAll(fields[i + 1..])) == (m + Put(fields[i])) + PutAll(fields[i + 1..]);
      m := m + Put(fields[i]);
    }
    assert m + [] == m;
  }

  // ---------------------------------------------------------------- the consensus journal

  function Journal(instructions: u64, output: seq<byte>): seq<byte> {
    ToLE(instructions, 8) + output
  }

  function JournalOutput(journal: seq<byte>): seq<byte> {
    if |journal| >= 8 then journal[8..] else []
  }

  /** The journal determines instruction count and output, and the output is read back from it. */
  lemma JournalBinds(n: u64, o: seq<byte>, n': u64, o': seq<byte>)
    ensures JournalOutput(Journal(n, o)) == o
    ensures Journal(n, o) == Journal(n', o') <==> n == n' && o == o'
  {
    hide ToLE;
    if Journal(n, o) == Journal(n', o') {
      AppendInjective(ToLE(n, 8), o, ToLE(n', 8), o');
      Pow256Values();
      ToLEInjective(n, n', 8);
    }
  }

  // ---------------------------------------------------------------- hex

  function Digit(c: byte): Option<nat> {
    if 0x30 <= c <= 0x39 then Some(c - 0x30)
    else if 0x61 <= c <= 0x66 then Some(c - 0x61 + 10)
    else if 0x41 <= c <= 0x46 then Some(c - 0x41 + 10)
    else None
  }

  datatype HexResult = Bytes(bytes: seq<byte>) | BadLength | InvalidByte(b: byte)

  function HexChar(d: nat): byte
    requires d < 16
  {
    if d < 10 then 0x30 + d else 0x61 + (d - 10)
  }

  /** Lower-case hex. */
  function Hex(b: seq<byte>): (s: Str)
    ensures |s| == 2 * |b|
  {
    if b == [] then [] else [HexChar(b[0] / 16), HexChar(b[0] % 16)] + Hex(b[1..])
  }

  /** Digits 2i and 2i+1 spell the byte b. */
  predicate PairIs(s: Str, i: nat, b: byte)
    requires 2 * i + 1 < |s|
  {
    var hi, lo := Digit(s[2 * i]), Digit(s[2 * i + 1]);
    hi.Some? && lo.Some? && b == 16 * hi.value + lo.value
  }

  lemma {:induction false} HexSpells(b: seq<byte>, i: nat)
    requires i < |b|
    ensures PairIs(Hex(b), i, b[i])
  {
    if i > 0 {
      HexSpells(b[1..], i - 1);
    }
  }

  /** Decoding what was encoded: `Hex(b)` is accepted and spells exactly b. */
  lemma {:induction false} HexRoundTrip(b: seq<byte>, c: seq<byte>)
    requires |c| == |b| && forall i :: 0 <= i < |b| ==> PairIs(Hex(b), i, c[i])
    ensures c == b
  {
    hide Hex, Digit;
    forall i | 0 <= i < |b|
      ensures c[i] == b[i]
    {
      HexSpells(b, i);
    }
  }

  /** `from_hex`: exact length, then digit pairs left to right, stopping at the first bad byte. */
  method FromHex(s: Str, want: nat) returns (r: HexResult)
    ensures r == BadLength <==> |s| != 2 * want
    ensures r.Bytes? <==> |s| == 2 * want && forall i :: 0 <= i < |s| ==> Digit(s[i]).Some?
    ensures r.Bytes? ==> |r.bytes| == want && forall i :: 0 <= i < want ==> PairIs(s, i, r.bytes[i])
    ensures r.InvalidByte? ==> r.b in s && Digit(r.b).None?
  {
    if |s| != 2 * want {
      return BadLength;
    }
    var out: seq<byte> := [];
    for i := 0 to want
      invariant |out| == i
      invariant forall j :: 0 <= j < 2 * i ==> Digit(s[j]).Some?
      invariant forall j :: 0 <= j < i ==> PairIs(s, j, out[j])
    {
      var hi, lo := Digit(s[2 * i]), Digit(s[2 * i + 1]);
      if hi.None? {
        return InvalidByte(s[2 * i]);
      }
      if lo.None? {
        return InvalidByte(s[2 * i + 1]);
      }
      out := out + [16 * hi.value + lo.value];
    }
    r := Bytes(out);
  }
}
