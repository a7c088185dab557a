/** FastKDF as a ring: a 256-byte salt ring read and xored modulo 256. */
module FastKdfSpec {
  import opened Bits
  import opened Memory

  /** The pseudo-random function: 64 bytes of input, 32 bytes of key, 32 bytes of output. */
  type Input = s: seq<byte> | |s| == 64 witness Zeros(64)
  type Key = s: seq<byte> | |s| == 32 witness Zeros(32)
  type Prf = (Input, Key) -> Key

  type RingBytes = s: seq<byte> | |s| == 256 witness Zeros(256)

  datatype Ring = Ring(bytes: RingBytes, at: nat)

  /** `p` repeated over and over, cut at n bytes. */
  function Tile(p: seq<byte>, n: nat): (r: seq<byte>)
    requires p != []
    ensures |r| == n
  {
    seq(n, i requires 0 <= i < n => p[i % |p|])
  }

  function Read(ring: RingBytes, at: nat, n: nat): (r: seq<byte>)
    ensures |r| == n
  {
    seq(n, i requires 0 <= i < n => ring[(at + i) % 256])
  }

  /** Xors a piece into the ring from position `at` on, around the end if need be. */
  function XorAt(ring: RingBytes, at: nat, piece: seq<byte>): RingBytes
    requires at < 256 && |piece| <= 256
  {
    seq(256, i requires 0 <= i < 256 =>
      var d := (i + 256 - at) % 256;
      if d < |piece| then Xor8(ring[i], piece[d]) else ring[i])
  }

  function Sum(p: seq<byte>): nat {
    if p == [] then 0 else Sum(p[..|p| - 1]) + p[|p| - 1]
  }

  /** One iteration: the output of the PRF picks the next position and is xored in there. */
  function Step(prf: Prf, password: RingBytes, ring: Ring): (next: Ring)
    ensures next.at < 256
  {
    var out := prf(Read(password, ring.at, 64), Read(ring.bytes, ring.at, 32));
    var at := Sum(out) % 256;
    Ring(XorAt(ring.bytes, at, out), at)
  }

  function Run(prf: Prf, password: RingBytes, salt: RingBytes, n: nat): (ring: Ring)
    ensures ring.at < 256
  {
    if n == 0 then Ring(salt, 0) else Step(prf, password, Run(prf, password, salt, n - 1))
  }

  /** The first min(length, 256) bytes of the ring from the last position on, xored with the password buffer. */
  function FastKdf(prf: Prf, password: seq<byte>, salt: seq<byte>, n: nat, length: nat): (r: seq<byte>)
    requires password != [] && salt != []
    ensures |r| == if length > 256 then 256 else length
  {
    var a := Tile(password, 256);
    var ring := Run(prf, a, Tile(salt, 256), n);
    var len := if length > 256 then 256 else length;
    XorBytes(Read(ring.bytes, ring.at, len), a[..len])
  }

  // ----- laws -----

  /** One iteration, byte by byte from the new position on: the output of the PRF over the next 64 bytes of the
      password and 32 of the ring is xored in at the sum of its bytes, and nothing else changes. */
  lemma StepByBytes(prf: Prf, password: RingBytes, ring: Ring, i: nat)
    requires i < 256
    ensures
      var out := prf(seq(64, k requires 0 <= k < 64 => password[(ring.at + k) % 256]),
                     seq(32, k requires 0 <= k < 32 => ring.bytes[(ring.at + k) % 256]));
      var next := Step(prf, password, ring);
      && next.at == Sum(out) % 256
      && next.bytes[(next.at + i) % 256]
           == if i < 32 then Xor8(ring.bytes[(next.at + i) % 256], out[i]) else ring.bytes[(next.at + i) % 256]
  {
    hide Sum, Xor8;
    var out := prf(Read(password, ring.at, 64), Read(ring.bytes, ring.at, 32));
    assert Read(password, ring.at, 64) == seq(64, k requires 0 <= k < 64 => password[(ring.at + k) % 256]);
    assert Read(ring.bytes, ring.at, 32) == seq(32, k requires 0 <= k < 32 => ring.bytes[(ring.at + k) % 256]);
    var at := Sum(out) % 256;
    WayRound(at, i);
  }

  lemma WayRound(at: nat, i: nat)
    requires at < 256 && i < 256
    ensures ((at + i) % 256 + 256 - at) % 256 == i
  {
  }

  /** Without iterations the output is the salt xored with the password, both repeated. */
  lemma NoIterations(prf: Prf, password: seq<byte>, salt: seq<byte>, length: nat, i: nat)
    requires password != [] && salt != [] && i < length && i < 256
    ensures FastKdf(prf, password, salt, 0, length)[i] == Xor8(salt[i % |salt|], password[i % |password|])
  {
    hide Xor8;
  }

  /** The output of any number of iterations: the ring from the last position on, xored with the password. */
  lemma OutputByBytes(prf: Prf, password: seq<byte>, salt: seq<byte>, n: nat, length: nat, i: nat)
    requires password != [] && salt != [] && i < length && i < 256
    ensures
      var ring := Run(prf, Tile(password, 256), Tile(salt, 256), n);
      FastKdf(prf, password, salt, n, length)[i]
        == Xor8(ring.bytes[(ring.at + i) % 256], password[i % |password|])
  {
    hide Xor8, Step, Run;
  }
}
