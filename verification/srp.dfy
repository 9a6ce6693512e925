/** The SRP-6a client of src/pair_ap/pair_fruit.c, against the server of RFC 5054. Hashes are
    arbitrary functions; the numbers are what matters: both sides get the same secret, so the
    client accepts the proof of a server that knows the PIN. */
module Srp {
  import opened Words

  // ----- Powers and remainders -----

  function Pow(b: int, e: nat): int {
    if e == 0 then 1 else b * Pow(b, e - 1)
  }

  /** bnum_modexp. The base may be negative; the remainder never is. */
  function PowMod(b: int, e: nat, n: nat): (r: nat)
    requires n > 0
  {
    Pow(b, e) % n
  }

  predicate Congruent(a: int, b: int, n: nat)
    requires n > 0
  {
    a % n == b % n
  }

  lemma ModMultiple(r: int, q: int, n: nat)
    requires n > 0
    ensures (r + q * n) % n == r % n
    decreases if q < 0 then -q else q
  {
    if q > 0 {
      ModMultiple(r, q - 1, n);
      ModStep(r + (q - 1) * n, n);
      assert r + q * n == r + (q - 1) * n + n;
    } else if q < 0 {
      ModMultiple(r, q + 1, n);
      ModStep(r + q * n, n);
      assert r + (q + 1) * n == r + q * n + n;
    }
  }

  lemma ModStep(x: int, n: nat)
    requires n > 0
    ensures (x + n) % n == x % n
  {
    var q, r := x / n, x % n;
    assert x + n == n * (q + 1) + r;
    QuotientUnique(x + n, q + 1, r, n);
  }

  lemma QuotientUnique(x: int, q: int, r: nat, n: nat)
    requires n > 0 && r < n && x == n * q + r
    ensures x % n == r && x / n == q
  {
    var d := x / n - q;
    assert n * d == r - x % n;
    MultipleBound(n, d);
  }

  lemma MultipleBound(n: nat, d: int)
    ensures d > 0 ==> n * d >= n
    ensures d < 0 ==> n * d + n <= 0
  {
  }

  lemma CongruentByDifference(a: int, b: int, q: int, n: nat)
    requires n > 0 && a == b + q * n
    ensures Congruent(a, b, n)
  {
    ModMultiple(b, q, n);
  }

  lemma Expand(b: int, d: int, p: int, q: int, n: int)
    ensures (b + p * n) * (d + q * n) == b * d + (b * q + p * d + p * q * n) * n
  {
  }

  lemma CongruentMul(a: int, b: int, c: int, d: int, n: nat)
    requires n > 0 && Congruent(a, b, n) && Congruent(c, d, n)
    ensures Congruent(a * c, b * d, n)
  {
    var p, q := a / n - b / n, c / n - d / n;
    assert a == b + p * n && c == d + q * n;
    Expand(b, d, p, q, n);
    CongruentByDifference(a * c, b * d, b * q + p * d + p * q * n, n);
  }

  lemma {:induction false} CongruentPow(a: int, b: int, e: nat, n: nat)
    requires n > 0 && Congruent(a, b, n)
    ensures Congruent(Pow(a, e), Pow(b, e), n)
  {
    if e > 0 {
      CongruentPow(a, b, e - 1, n);
      CongruentMul(a, b, Pow(a, e - 1), Pow(b, e - 1), n);
    }
  }

  lemma CongruentMod(a: int, n: nat)
    requires n > 0
    ensures Congruent(a % n, a, n)
  {
    assert a % n == a + -(a / n) * n;
    CongruentByDifference(a % n, a, -(a / n), n);
  }

  lemma {:induction false} PowAdd(b: int, e: nat, f: nat)
    ensures Pow(b, e + f) == Pow(b, e) * Pow(b, f)
  {
    if e > 0 {
      PowAdd(b, e - 1, f);
      assert b * (Pow(b, e - 1) * Pow(b, f)) == b * Pow(b, e - 1) * Pow(b, f);
    }
  }

  lemma {:induction false} PowPow(b: int, e: nat, f: nat)
    ensures Pow(Pow(b, e), f) == Pow(b, e * f)
  {
    if f > 0 {
      PowPow(b, e, f - 1);
      PowAdd(b, e, e * (f - 1));
      assert e * f == e + e * (f - 1);
    } else {
      assert e * f == 0;
    }
  }

  /** SRP agreement (sections 2.5.3, 2.5.4 and 2.6 of RFC 5054): the client's secret and the
      server's are the same power of g, for any modulus, generator and exponents. */
  lemma Agreement(n: nat, g: int, k: int, x: nat, u: nat, a: nat, b: nat)
    requires n > 1
    ensures var v, A := PowMod(g, x, n), PowMod(g, a, n);
            var B := (k * v + PowMod(g, b, n)) % n;
            ClientSecret(n, g, k, x, u, a, B) == PowMod(A * PowMod(v, u, n), b, n)
  {
    var v, A, gb := PowMod(g, x, n), PowMod(g, a, n), PowMod(g, b, n);
    var B := (k * v + gb) % n;
    var e := a + u * x;
    // the client: B - k*v is g^b, so the power is g^(b*e)
    ClientBase(k * v, Pow(g, b), n);
    CongruentPow(B - k * v, Pow(g, b), e, n);
    PowPow(g, b, e);
    // the server: A * v^u is g^e, so the power is g^(e*b)
    ServerBase(g, x, u, a, n);
    CongruentPow(A * PowMod(v, u, n), Pow(g, e), b, n);
    PowPow(g, e, b);
    assert b * e == e * b;
  }

  lemma ClientBase(kv: int, gb: int, n: nat)
    requires n > 0
    ensures Congruent((kv + gb % n) % n - kv, gb, n)
  {
    var s := kv + gb % n;
    assert s % n - kv == gb + (-(s / n) - gb / n) * n by {
      assert s == s / n * n + s % n;
      assert gb == gb / n * n + gb % n;
      assert (-(s / n) - gb / n) * n == -(s / n * n) - gb / n * n;
    }
    CongruentByDifference(s % n - kv, gb, -(s / n) - gb / n, n);
  }

  lemma ServerBase(g: int, x: nat, u: nat, a: nat, n: nat)
    requires n > 0
    ensures Congruent(PowMod(g, a, n) * PowMod(PowMod(g, x, n), u, n), Pow(g, a + u * x), n)
  {
    var v := PowMod(g, x, n);
    CongruentMod(Pow(g, a), n);
    CongruentMod(Pow(g, x), n);
    CongruentPow(v, Pow(g, x), u, n);
    PowPow(g, x, u);
    CongruentMod(Pow(v, u), n);
    CongruentMul(PowMod(g, a, n), Pow(g, a), PowMod(v, u, n), Pow(g, x * u), n);
    PowAdd(g, a, x * u);
    assert x * u == u * x;
  }

  // ----- Numbers as bytes -----

  /** bnum_bn2bin: big-endian without leading zeros. */
  function ToBytes(n: nat): (bs: seq<byte>)
    ensures bs == [] || bs[0] != 0
  {
    if n == 0 then [] else ToBytes(n / 0x100) + [n % 0x100]
  }

  /** bnum_bin2bn. */
  function FromBytes(bs: seq<byte>): nat {
    if bs == [] then 0 else FromBytes(bs[..|bs| - 1]) * 0x100 + bs[|bs| - 1] as int
  }

  lemma {:induction false} BytesRoundTrip(n: nat)
    ensures FromBytes(ToBytes(n)) == n
  {
    if n > 0 {
      BytesRoundTrip(n / 0x100);
      assert ToBytes(n)[..|ToBytes(n)| - 1] == ToBytes(n / 0x100);
    }
  }

  lemma {:induction false} Shorter(m: nat, n: nat)
    requires m <= n
    ensures |ToBytes(m)| <= |ToBytes(n)|
  {
    if m > 0 {
      Shorter(m / 0x100, n / 0x100);
    }
  }

  /** Going through a number can only shorten a byte string, and does so exactly when it starts
      with a zero. */
  lemma {:induction false} NumberShortens(bs: seq<byte>)
    ensures |ToBytes(FromBytes(bs))| <= |bs|
    ensures |ToBytes(FromBytes(bs))| == |bs| <==> bs == [] || bs[0] != 0
    decreases |bs|
  {
    if bs != [] {
      var init, last: int := bs[..|bs| - 1], bs[|bs| - 1];
      NumberShortens(init);
      var n := FromBytes(init);
      assert (n * 0x100 + last) / 0x100 == n;
      if init == [] {
        assert n == 0 && ToBytes(n) == [];
      }
    }
  }

  /** A byte string survives as a number exactly when it has no leading zero; a salt with one
      reaches the client's hashes without it. */
  lemma {:induction false} CanonicalBytes(bs: seq<byte>)
    ensures ToBytes(FromBytes(bs)) == bs <==> bs == [] || bs[0] != 0
    ensures FromBytes(bs) == 0 <==> forall i :: 0 <= i < |bs| ==> bs[i] == 0
    decreases |bs|
  {
    NumberShortens(bs);
    ZeroBytes(bs);
    if bs != [] && bs[0] != 0 {
      var init, last: int := bs[..|bs| - 1], bs[|bs| - 1];
      CanonicalBytes(init);
      var n := FromBytes(init);
      assert (n * 0x100 + last) / 0x100 == n && (n * 0x100 + last) % 0x100 == last;
      assert bs == init + [bs[|bs| - 1]];
    }
  }

  lemma {:induction false} ZeroBytes(bs: seq<byte>)
    ensures FromBytes(bs) == 0 <==> forall i :: 0 <= i < |bs| ==> bs[i] == 0
  {
    if bs != [] {
      ZeroBytes(bs[..|bs| - 1]);
    }
  }

  /** The big-endian form of a fixed length (I2OSP of RFC 8017, PAD of RFC 5054), for a number that
      fits it. */
  function Fixed(n: nat, len: nat): (bs: seq<byte>)
    ensures |bs| == len
  {
    if len == 0 then [] else Fixed(n / 0x100, len - 1) + [n % 0x100]
  }

  /** Zeros in front of the shortest form make that of a fixed length. */
  lemma {:induction false} ZerosInFront(n: nat, len: nat)
    requires |ToBytes(n)| <= len
    ensures seq(len - |ToBytes(n)|, i => 0) + ToBytes(n) == Fixed(n, len)
  {
    if len > 0 {
      var high := n / 0x100;
      assert n == 0 ==> high == 0 && n % 0x100 == 0;
      ZerosInFront(high, len - 1);
      if n > 0 {
        assert ToBytes(n) == ToBytes(high) + [n % 0x100];
      } else {
        assert seq(len, i => 0) == seq(len - 1, i => 0) + [0];
      }
    }
  }

  // ----- What RFC 5054 and RFC 2945 have both sides compute -----

  type Hash = seq<byte> -> seq<byte>

  ghost predicate HashLength(h: Hash, len: nat) { forall x :: |h(x)| == len }

  /** x of section 2.4 of RFC 5054: the number that SHA(s | SHA(I | ":" | P)) spells. */
  function PrivateKey(h: Hash, salt: seq<byte>, username: seq<byte>, password: seq<byte>): nat {
    FromBytes(h(salt + h(username + [0x3A] + password)))
  }

  /** The number that the hash of two padded numbers spells: k for N and g, u for A and B. */
  function PaddedHash(h: Hash, n1: nat, n2: nat, len: nat): nat {
    FromBytes(h(Fixed(n1, len) + Fixed(n2, len)))
  }

  /** The client's secret of section 2.6 of RFC 5054. */
  function ClientSecret(n: nat, g: int, k: int, x: nat, u: nat, a: nat, B: nat): nat
    requires n > 0
  {
    Pow(B - k * (Pow(g, x) % n), a + u * x) % n
  }

  /** The key of Apple's variant: two hashes of the secret. */
  function SessionKey(h: Hash, secret: nat): seq<byte> {
    h(ToBytes(secret) + [0, 0, 0, 0]) + h(ToBytes(secret) + [0, 0, 0, 1])
  }

  function XorBytes(a: seq<byte>, b: seq<byte>): (r: seq<byte>)
    requires |a| == |b|
    ensures |r| == |a|
  {
    seq(|a|, i requires 0 <= i < |a| => ((a[i] as bv8) ^ (b[i] as bv8)) as int)
  }

  /** What the client's proof M is the hash of. */
  function ProofText(h: Hash, len: nat, n: nat, g: nat, username: seq<byte>, salt: seq<byte>, A: nat, B: nat,
                     key: seq<byte>)
    : seq<byte>
    requires HashLength(h, len)
  {
    XorBytes(h(ToBytes(n)), h(ToBytes(g))) + h(username) + salt + ToBytes(A) + ToBytes(B) + key
  }

  /** The client's proof M, and the server's answer to it. */
  function ClientProof(h: Hash, len: nat, n: nat, g: nat, username: seq<byte>, salt: seq<byte>, A: nat, B: nat,
                       key: seq<byte>)
    : seq<byte>
    requires HashLength(h, len)
  {
    h(ProofText(h, len, n, g, username, salt, A, B, key))
  }

  function ServerProof(h: Hash, A: nat, clientProof: seq<byte>, key: seq<byte>): seq<byte> {
    h(ToBytes(A) + clientProof + key)
  }

  // ----- The server of RFC 5054 -----

  /** What the server holds: the group, a user's name, salt and password verifier, and its random
      b. It does not hold the password. */
  datatype Server = Server(h: Hash, len: nat, n: nat, g: nat, nLen: nat,
                           username: seq<byte>, salt: seq<byte>, verifier: nat, b: nat)
  {
    ghost predicate Valid() {
      HashLength(h, len) && n > 1 && |ToBytes(n)| <= nLen && |ToBytes(g)| <= nLen
    }

    /** The verifier stored is that of this password. */
    ghost predicate Stores(password: seq<byte>) requires n > 0 {
      verifier == Pow(g, FromBytes(h(salt + h(username + [0x3A] + password)))) % n
    }

    function K(): nat { FromBytes(h(Fixed(n, nLen) + Fixed(g, nLen))) }

    function PublicB(): (B: nat)
      requires Valid()
      ensures B < n
    {
      (K() * verifier + Pow(g, b) % n) % n
    }

    function U(A: nat): nat requires Valid() { FromBytes(h(Fixed(A, nLen) + Fixed(PublicB(), nLen))) }

    function Secret(A: nat): nat requires Valid() { Pow(A * Pow(verifier, U(A)), b) % n }

    function Key(A: nat): seq<byte> requires Valid() {
      h(ToBytes(Secret(A)) + [0, 0, 0, 0]) + h(ToBytes(Secret(A)) + [0, 0, 0, 1])
    }

    /** What the proof it expects is the hash of. */
    function Text(A: nat): seq<byte> requires Valid() {
      var hN, hg := h(ToBytes(n)), h(ToBytes(g));
      seq(len, i requires 0 <= i < len => ((hN[i] as bv8) ^ (hg[i] as bv8)) as int)
      + h(username) + salt + ToBytes(A) + ToBytes(PublicB()) + Key(A)
    }

    /** The proof it expects of the client, and its own. */
    function Expected(A: nat): seq<byte> requires Valid() { h(Text(A)) }

    function Proof(A: nat): seq<byte> requires Valid() { h(ToBytes(A) + Expected(A) + Key(A)) }
  }

  /** The values of the server are those of the standard, and its secret is the client's. */
  lemma ServerFollows(server: Server, A: nat)
    requires server.Valid()
    ensures server.K() == PaddedHash(server.h, server.n, server.g, server.nLen)
    ensures server.U(A) == PaddedHash(server.h, A, server.PublicB(), server.nLen)
    ensures server.Key(A) == SessionKey(server.h, server.Secret(A))
    ensures server.Text(A) == ProofText(server.h, server.len, server.n, server.g, server.username, server.salt, A,
                                        server.PublicB(), server.Key(A))
    ensures server.Expected(A) == ClientProof(server.h, server.len, server.n, server.g, server.username, server.salt, A,
                                              server.PublicB(), server.Key(A))
    ensures server.Proof(A) == ServerProof(server.h, A, server.Expected(A), server.Key(A))
  {
    hide ToBytes, FromBytes, Fixed, Pow;
  }

  /** A power of v to the u may be taken before or after the remainder. */
  lemma SecretOfPower(server: Server, A: nat)
    requires server.Valid()
    ensures server.Secret(A) == PowMod(A * PowMod(server.verifier, server.U(A), server.n), server.b, server.n)
  {
    hide Server.U, Pow;
    var n, vu := server.n, Pow(server.verifier, server.U(A));
    CongruentMod(vu, n);
    CongruentMul(A, A, vu % n, vu, n);
    CongruentPow(A * (vu % n), A * vu, server.b, n);
  }

  // ----- The client -----

  class SrpUser {
    const h: Hash
    const len: nat
    const n: nat
    const g: nat
    const nLen: nat
    const username: seq<byte>
    const password: seq<byte>
    var a: nat
    var A: nat
    var S: nat
    var M: seq<byte>
    var hAmk: seq<byte>
    var sessionKey: seq<byte>
    var authenticated: bool

    /** srp_user_new. */
    constructor (h: Hash, len: nat, n: nat, g: nat, nLen: nat, username: seq<byte>, password: seq<byte>)
      requires HashLength(h, len)
      ensures this.h == h && this.len == len && this.n == n && this.g == g && this.nLen == nLen
      ensures this.username == username && this.password == password
      ensures !authenticated && hAmk == seq(len, i => 0)
    {
      this.h, this.len, this.n, this.g, this.nLen := h, len, n, g, nLen;
      this.username, this.password := username, password;
      a, A, S, M, hAmk, sessionKey, authenticated := 0, 0, 0, [], seq(len, i => 0), [], false;
    }

    /** What its proof is the hash of, for a salt and B. */
    ghost function Text(s: nat, B: nat): seq<byte>
      requires HashLength(h, len)
      reads this
    {
      ProofText(h, len, n, g, username, ToBytes(s), A, B, sessionKey)
    }

    /** srp_user_start_authentication; the random exponent is a parameter. */
    method StartAuthentication(random: nat) returns (bytesA: seq<byte>)
      requires n > 0
      modifies this`a, this`A
      ensures a == random && A == PowMod(g, random, n) < n && FromBytes(bytesA) == A
    {
      a := random;
      A := PowMod(g, a, n);
      BytesRoundTrip(A);
      bytesA := ToBytes(A);
    }

    /** calculate_x. */
    method CalculateX(salt: nat) returns (x: nat)
      ensures x == PrivateKey(h, ToBytes(salt), username, password)
    {
      var ucpHash := h(username + [':' as int] + password);
      x := FromBytes(h(ToBytes(salt) + ucpHash));
    }

    /** H_nn_pad: the two numbers are written to the ends of two halves full of zeros. */
    method HashPadded(n1: nat, n2: nat) returns (r: nat)
      requires |ToBytes(n1)| <= nLen && |ToBytes(n2)| <= nLen
      ensures r == PaddedHash(h, n1, n2, nLen)
    {
      hide ToBytes, FromBytes, Fixed;
      var bytes1, bytes2 := ToBytes(n1), ToBytes(n2);
      var offset1, offset2 := nLen - |bytes1|, 2 * nLen - |bytes2|;
      var bin := new byte[2 * nLen](i => 0);
      forall i | 0 <= i < |bytes1| {
        bin[offset1 + i] := bytes1[i];
      }
      forall i | 0 <= i < |bytes2| {
        bin[offset2 + i] := bytes2[i];
      }
      assert bin[..nLen] == seq(offset1, i => 0) + bytes1;
      assert bin[nLen..] == seq(nLen - |bytes2|, i => 0) + bytes2;
      ZerosInFront(n1, nLen);
      ZerosInFront(n2, nLen);
      assert bin[..] == bin[..nLen] + bin[nLen..];
      r := FromBytes(h(bin[..]));
    }

    /** hash_session_key. */
    method HashSessionKey(secret: nat) returns (key: seq<byte>)
      ensures key == SessionKey(h, secret)
    {
      var fourBytes: seq<byte> := [0, 0, 0, 0];
      key := h(ToBytes(secret) + fourBytes);
      fourBytes := fourBytes[3 := 1];
      assert fourBytes == [0, 0, 0, 1];
      key := key + h(ToBytes(secret) + fourBytes);
    }

    /** calculate_H_AMK. */
    method CalculateHAmk(m: seq<byte>, key: seq<byte>) returns (hAmk: seq<byte>)
      ensures hAmk == ServerProof(h, A, m, key)
    {
      hAmk := h(ToBytes(A) + m + key);
    }

    /** calculate_M; its loop combines the two hashes in place. */
    method CalculateM(salt: nat, B: nat, key: seq<byte>) returns (m: seq<byte>)
      requires HashLength(h, len)
      ensures m == ClientProof(h, len, n, g, username, ToBytes(salt), A, B, key)
    {
      hide ToBytes;
      var hN, hG := h(ToBytes(n)), h(ToBytes(g));
      var hXor := new byte[len](i => 0);
      for i := 0 to len
        invariant forall j :: 0 <= j < i ==> hXor[j] == ((hN[j] as bv8) ^ (hG[j] as bv8)) as int
      {
        hXor[i] := ((hN[i] as bv8) ^ (hG[i] as bv8)) as int;
      }
      assert hXor[..] == XorBytes(hN, hG);
      m := h(hXor[..] + h(username) + ToBytes(salt) + ToBytes(A) + ToBytes(B) + key);
    }

    /** srp_user_process_challenge: no proof is made when B or u is 0. The padding asserts that
        the numbers fit the group. */
    method ProcessChallenge(bytesS: seq<byte>, bytesB: seq<byte>) returns (bytesM: seq<byte>)
      requires HashLength(h, len) && n > 0
      requires |ToBytes(n)| <= nLen && |ToBytes(g)| <= nLen
      requires |ToBytes(A)| <= nLen && |ToBytes(FromBytes(bytesB))| <= nLen
      modifies this`S, this`M, this`hAmk, this`sessionKey
      ensures var s, B := FromBytes(bytesS), FromBytes(bytesB);
              var k, u := PaddedHash(h, n, g, nLen), PaddedHash(h, A, B, nLen);
              var x := PrivateKey(h, ToBytes(s), username, password);
              if B == 0 || u == 0 then bytesM == [] && hAmk == old(hAmk) && sessionKey == old(sessionKey)
              else
                && S == ClientSecret(n, g, k, x, u, a, B)
                && sessionKey == SessionKey(h, S)
                && bytesM == M == ClientProof(h, len, n, g, username, ToBytes(s), A, B, sessionKey)
                && hAmk == ServerProof(h, A, M, sessionKey)
    {
      hide ToBytes, FromBytes, Pow, PaddedHash, PrivateKey, SessionKey, ClientProof, ServerProof;
      var s, B := FromBytes(bytesS), FromBytes(bytesB);
      var k := HashPadded(n, g);
      var u := HashPadded(A, B);
      var x := CalculateX(s);
      bytesM := [];
      if B != 0 && u != 0 {
        var tmp1: int := u * x;
        var tmp2: nat := a + tmp1;
        tmp1 := PowMod(g, x, n);
        var tmp3 := k * tmp1;
        tmp1 := B - tmp3;
        S := PowMod(tmp1, tmp2, n);
        sessionKey := HashSessionKey(S);
        M := CalculateM(s, B, sessionKey);
        hAmk := CalculateHAmk(M, sessionKey);
        bytesM := M;
      }
    }

    /** srp_user_verify_session: compares as many bytes as the hash has. */
    method VerifySession(bytesHamk: seq<byte>)
      requires |hAmk| == len <= |bytesHamk|
      modifies this`authenticated
      ensures authenticated == (old(authenticated) || hAmk == bytesHamk[..len])
    {
      if hAmk == bytesHamk[..len] {
        authenticated := true;
      }
    }
  }

  /** h tells these two apart, if they differ. */
  predicate NoCollision(h: Hash, x: seq<byte>, y: seq<byte>) { h(x) == h(y) ==> x == y }

  /** The two proofs when the server hashes the salt as it was sent, and the client what is left
      of it as a number: they are the same exactly when the salt does not start with a zero. */
  lemma ProofsAgreeIff(h: Hash, len: nat, n: nat, g: nat, username: seq<byte>, salt: seq<byte>, A: nat, B: nat,
                       key: seq<byte>, serverKey: seq<byte>)
    requires HashLength(h, len) && |key| == |serverKey|
    requires salt == [] || salt[0] != 0 ==> key == serverKey
    requires NoCollision(h, ProofText(h, len, n, g, username, ToBytes(FromBytes(salt)), A, B, key),
                         ProofText(h, len, n, g, username, salt, A, B, serverKey))
    ensures var number := ToBytes(FromBytes(salt));
            var same := ClientProof(h, len, n, g, username, number, A, B, key)
                        == ClientProof(h, len, n, g, username, salt, A, B, serverKey);
            same <==> salt == [] || salt[0] != 0
  {
    CanonicalBytes(salt);
    NumberShortens(salt);
    var x := ProofText(h, len, n, g, username, ToBytes(FromBytes(salt)), A, B, key);
    var y := ProofText(h, len, n, g, username, salt, A, B, serverKey);
    assert |x| - |ToBytes(FromBytes(salt))| == |y| - |salt|;
  }

  /** A hash that tells texts of different length apart. */
  function LengthHash(x: seq<byte>): seq<byte> { [|x| % 0x100] }

  /** The salt of one zero byte: with this hash the proofs differ for every group and all keys. */
  lemma ZeroSaltDiffers(n: nat, g: nat, username: seq<byte>, A: nat, B: nat, key: seq<byte>, serverKey: seq<byte>)
    requires |key| == |serverKey|
    ensures HashLength(LengthHash, 1)
    ensures ClientProof(LengthHash, 1, n, g, username, ToBytes(FromBytes([0])), A, B, key)
            != ClientProof(LengthHash, 1, n, g, username, [0], A, B, serverKey)
  {
    var x := ProofText(LengthHash, 1, n, g, username, ToBytes(FromBytes([0])), A, B, key);
    var y := ProofText(LengthHash, 1, n, g, username, [0], A, B, serverKey);
    assert FromBytes([0]) == 0 by {
      CanonicalBytes([0]);
    }
    assert |x| + 1 == |y|;
  }

  /** Both sides use the same group, hash and name, and the verifier is that of the client's PIN. */
  ghost predicate Match(client: SrpUser, server: Server) requires server.n > 0 {
    && client.h == server.h && client.len == server.len && client.n == server.n && client.g == server.g
    && client.nLen == server.nLen && client.username == server.username && server.Stores(client.password)
  }

  /** The client has made its proof from this salt. */
  ghost predicate Proved(client: SrpUser, server: Server, salt: nat)
    requires server.Valid() && Match(client, server)
    reads client
  {
    var u := server.U(client.A);
    var x := FromBytes(client.h(ToBytes(salt) + client.h(client.username + [0x3A] + client.password)));
    && client.S == ClientSecret(server.n, server.g, server.K(), x, u, client.a, server.PublicB())
    && client.sessionKey == SessionKey(client.h, client.S)
    && client.M == client.h(client.Text(salt, server.PublicB()))
  }

  /** Secret, key, proof and the answer waited for are the server's. */
  ghost predicate Agreed(client: SrpUser, server: Server)
    requires server.Valid()
    reads client
  {
    && client.S == server.Secret(client.A) && client.sessionKey == server.Key(client.A)
    && client.M == server.Expected(client.A)
  }

  /** The exchange with an honest server that knows the PIN. Without a proof, because B or u is 0,
      nothing happens. Otherwise, when the salt that the server hashes does not start with a zero,
      the client's proof is the one the server expects, both have the same key, and the client
      accepts the server's proof. With any other salt the proof is not what the server expects,
      unless the hash collides, and so the server does not send its own. The salt may reach the
      client with any number of zeros in front. */
  method HonestExchange(client: SrpUser, server: Server, random: nat, bytesS: seq<byte>, bytesB: seq<byte>)
    requires server.Valid() && Match(client, server)
    requires FromBytes(bytesS) == FromBytes(server.salt) && FromBytes(bytesB) == server.PublicB()
    requires !client.authenticated && |client.hAmk| == client.len
    modifies client
    ensures client.A == Pow(client.g, random) % client.n
    ensures server.PublicB() == 0 || server.U(client.A) == 0 ==>
              client.sessionKey == old(client.sessionKey) && (server.len > 0 ==> !client.authenticated)
    ensures server.PublicB() != 0 && server.U(client.A) != 0 ==> Proved(client, server, FromBytes(bytesS))
    ensures server.PublicB() != 0 && server.U(client.A) != 0 && (server.salt == [] || server.salt[0] != 0) ==>
              Agreed(client, server) && client.hAmk == server.Proof(client.A) && client.authenticated
    ensures server.PublicB() != 0 && server.U(client.A) != 0
            && NoCollision(server.h, client.Text(FromBytes(bytesS), server.PublicB()), server.Text(client.A)) ==>
              (client.M == server.Expected(client.A) <==> server.salt == [] || server.salt[0] != 0)
              && (client.authenticated <==> client.M == server.Expected(client.A))
  {
    hide ToBytes, FromBytes, Pow, Fixed, SessionKey, NoCollision, ProofText;
    hide Server.K, Server.U, Server.Key, Server.Text, Server.Secret, Server.PublicB, Server.Expected, Server.Proof;
    var _ := client.StartAuthentication(random);
    Shorter(client.A, server.n);
    Shorter(server.PublicB(), server.n);
    var bytesM := client.ProcessChallenge(bytesS, bytesB);
    ghost var A := client.A;
    ServerFollows(server, A);
    if server.PublicB() != 0 && server.U(A) != 0 {
      ProofIsRight(client, server, random, FromBytes(bytesS));
    }
    ProofLengths(server, A);
    if bytesM == server.Expected(client.A) {
      var proof := server.Proof(client.A);
      client.VerifySession(proof);
      assert proof[..server.len] == proof;
    }
  }

  /** The client's state after its proof, against the server's. */
  lemma ProofIsRight(client: SrpUser, server: Server, random: nat, salt: nat)
    requires server.Valid() && Match(client, server) && salt == FromBytes(server.salt)
    requires client.A == PowMod(server.g, random, server.n) && client.a == random
    requires Proved(client, server, salt)
    ensures server.salt == [] || server.salt[0] != 0 ==> Agreed(client, server)
    ensures NoCollision(server.h, client.Text(salt, server.PublicB()), server.Text(client.A)) ==>
              (client.M == server.Expected(client.A) <==> server.salt == [] || server.salt[0] != 0)
  {
    hide ToBytes, FromBytes, Pow, Fixed, SessionKey, NoCollision, ProofText;
    hide Server.K, Server.U, Server.Key, Server.Text, Server.Secret, Server.Expected;
    CanonicalBytes(server.salt);
    ServerFollows(server, client.A);
    KeyLength(server, client.S, server.Secret(client.A));
    if server.salt == [] || server.salt[0] != 0 {
      SecretOfPower(server, client.A);
      Agreement(server.n, server.g, server.K(),
                FromBytes(server.h(server.salt + server.h(server.username + [0x3A] + client.password))),
                server.U(client.A), random, server.b);
    }
    if NoCollision(server.h, client.Text(salt, server.PublicB()), server.Text(client.A)) {
      ProofsAgreeIff(server.h, server.len, server.n, server.g, server.username, server.salt, client.A, server.PublicB(),
                     client.sessionKey, server.Key(client.A));
    }
  }

  lemma ProofLengths(server: Server, A: nat)
    requires server.Valid()
    ensures |server.Proof(A)| == |server.Expected(A)| == server.len
  {
  }

  lemma KeyLength(server: Server, a: nat, b: nat)
    requires server.Valid()
    ensures |SessionKey(server.h, a)| == |SessionKey(server.h, b)| == 2 * server.len
  {
  }

  /** A server whose salt is one zero byte: B is 5 and u is 2. */
  const ZERO_SALTED := Server(LengthHash, 1, 23, 5, 1, [], [0], 2, 0)

  lemma ZeroSalted(A: nat)
    requires A < 23
    ensures ZERO_SALTED.Valid() && ZERO_SALTED.PublicB() == 5 && ZERO_SALTED.U(A) == 2
    ensures ZERO_SALTED.Stores([])
  {
    assert ToBytes(23) == [23] && ToBytes(5) == [5] by {
      assert ToBytes(0) == [];
    }
    assert FromBytes([2]) == 2 by {
      assert [2][..0] == [] && FromBytes([]) == 0;
    }
    assert ZERO_SALTED.K() == 2;
    assert Pow(5, 2) == 25 && Pow(5, 0) == 1;
  }

  /** The exchange with it ends without the client being convinced, although both know the PIN. */
  method ZeroSaltRefused(random: nat) returns (client: SrpUser)
    ensures !client.authenticated && client.A < 23 && client.M != ZERO_SALTED.Expected(client.A)
  {
    hide ToBytes, FromBytes, Pow, Fixed, SessionKey, ProofText;
    var server := ZERO_SALTED;
    ZeroSalted(0);
    client := new SrpUser(server.h, server.len, server.n, server.g, server.nLen, server.username, []);
    BytesRoundTrip(server.PublicB());
    HonestExchange(client, server, random, server.salt, ToBytes(server.PublicB()));
    ZeroSalted(client.A);
    ServerFollows(server, client.A);
    KeyLength(server, client.S, server.Secret(client.A));
    ZeroSaltDiffers(23, 5, [], client.A, 5, client.sessionKey, server.Key(client.A));
  }
}
