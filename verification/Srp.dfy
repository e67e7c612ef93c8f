/** The SRP-6a key agreement, both sides, over an abstract 20-byte hash.

    The client reduces its exponents modulo the prime itself. That keeps the exponent only
    because a 20-byte hash makes u and x small; `KeysAgree` carries the bound. */
module Srp {
  import opened Bytes
  import opened ModularPower
  import opened BigEndian

  const KEY_SIZE := 128
  const HASH_SIZE := 20

  const PRIME: nat := 0xE67D2E994B2F900C3F41F08F5BB2627ED0D49EE1FE767A52EFCD565CD6E768812C3E1E9CE8F0A8BEA6CB13CD29DDEBF7A96D4A93B55D488DF099A15C89DCB0640738EB2CBDD9A8F7BAB561AB1B0DC1C6CDABF303264A08D1BCA932D1F1EE428B619D970F342ABA9A65793B8B2F041AE5364350C16F735F56ECBCA87BD57B29E7
  const G: nat := 2
  const K: nat := 1277432915985975349439481660349303019122249719989

  /** 2 to the power 160 and 320: above every hash and every product of two. */
  const HASH_BOUND: nat := 0x1_0000_0000_0000_0000_0000_0000_0000_0000_0000_0000
  const PRODUCT_BOUND: nat := HASH_BOUND * HASH_BOUND

  // --- numbers as bytes -------------------------------------------------

  function WithoutLeadingZeros(s: seq<byte>): seq<byte> {
    if s != [] && s[0] == 0 then WithoutLeadingZeros(s[1..]) else s
  }

  function PadBytes(v: nat): seq<byte> {
    WithoutLeadingZeros(FixedBytes(v, KEY_SIZE))
  }

  /** The shortest big-endian form (big.Int's Bytes). */
  function MinimalBytes(v: nat): seq<byte> {
    if v == 0 then [] else MinimalBytes(v / 256) + [v % 256]
  }

  /** Fills a 128-byte buffer from the low end, reverses it in place and skips the zeros. */
  method Pad(v: nat) returns (r: seq<byte>)
    ensures r == PadBytes(v)
  {
    hide ByteAt, FixedBytes, Shifted;
    var buf := new byte[KEY_SIZE](_ => 0);
    var n := v;
    LowByte(v, 0);
    for k := 0 to buf.Length
      invariant n == Shifted(v, k)
      invariant forall j | 0 <= j < k :: buf[j] == ByteAt(v, j)
    {
      LowByte(v, k);
      buf[k] := n % 256;
      n := n / 256;
    }
    var i, j := 0, buf.Length - 1;
    while i < j
      invariant 0 <= i <= j + 1 <= buf.Length && i + j == buf.Length - 1
      invariant forall k | 0 <= k < i || j < k < buf.Length :: buf[k] == ByteAt(v, KEY_SIZE - 1 - k)
      invariant forall k | i <= k <= j :: buf[k] == ByteAt(v, k)
    {
      buf[i], buf[j] := buf[j], buf[i];
      i, j := i + 1, j - 1;
    }
    FixedFromBytes(v, buf[..]);
    i := 0;
    while i < buf.Length && buf[i] == 0
      invariant 0 <= i <= buf.Length
      invariant WithoutLeadingZeros(buf[i..]) == PadBytes(v)
    {
      assert buf[i..][1..] == buf[i + 1..];
      i := i + 1;
    }
    r := buf[i..];
  }

  lemma LowByte(v: nat, k: nat)
    ensures ByteAt(v, k) == Shifted(v, k) % 256 && Shifted(v, k + 1) == Shifted(v, k) / 256 && Shifted(v, 0) == v
  {
  }

  lemma FixedFromBytes(v: nat, s: seq<byte>)
    requires |s| == KEY_SIZE && forall k | 0 <= k < KEY_SIZE :: s[k] == ByteAt(v, KEY_SIZE - 1 - k)
    ensures s == FixedBytes(v, KEY_SIZE) && PadBytes(v) == WithoutLeadingZeros(s)
  {
    hide ByteAt;
  }

  lemma {:induction false} LeadingZeroValue(s: seq<byte>)
    requires s != [] && s[0] == 0
    ensures Big(s[1..]) == Big(s)
  {
    if |s| > 1 {
      assert s[..|s| - 1][1..] == s[1..][..|s| - 2];
      LeadingZeroValue(s[..|s| - 1]);
    }
  }

  lemma {:induction false} StrippedValue(s: seq<byte>)
    ensures Big(WithoutLeadingZeros(s)) == Big(s)
    ensures WithoutLeadingZeros(s) != [] ==> WithoutLeadingZeros(s)[0] != 0
  {
    if s != [] && s[0] == 0 {
      LeadingZeroValue(s);
      StrippedValue(s[1..]);
    }
  }

  lemma {:induction false} MinimalIsCanonical(s: seq<byte>)
    requires s != [] ==> s[0] != 0
    ensures MinimalBytes(Big(s)) == s
    ensures s != [] ==> Big(s) > 0
  {
    if s != [] {
      var front, last := s[..|s| - 1], s[|s| - 1];
      MinimalIsCanonical(front);
      assert Big(s) / 256 == Big(front) && Big(s) % 256 == last;
      assert s == front + [last];
    }
  }

  /** Padding keeps the number modulo 2^1024 and is its shortest byte form. */
  lemma PadIsMinimal(v: nat)
    ensures Pow(256, KEY_SIZE) > 0
    ensures PadBytes(v) == MinimalBytes(v % Pow(256, KEY_SIZE))
  {
    FixedBytesValue(v, KEY_SIZE);
    StrippedValue(FixedBytes(v, KEY_SIZE));
    MinimalIsCanonical(PadBytes(v));
  }

  /** Reading the padded form gives the number back exactly when it fits 128 bytes. */
  lemma PadRoundTrip(v: nat)
    ensures Big(PadBytes(v)) == v <==> v < Pow(256, KEY_SIZE)
  {
    var m := Pow(256, KEY_SIZE);
    FixedBytesValue(v, KEY_SIZE);
    StrippedValue(FixedBytes(v, KEY_SIZE));
    if v < m {
      RemainderIs(v, m, 0, v);
    }
  }

  // --- the protocol -----------------------------------------------------

  /** A hash with 20-byte digests. */
  ghost predicate IsHash(h: seq<byte> -> seq<byte>) {
    forall m :: |h(m)| == HASH_SIZE
  }

  function Scramble(h: seq<byte> -> seq<byte>, keyA: nat, keyB: nat): nat {
    Big(h(PadBytes(keyA) + PadBytes(keyB)))
  }

  function UserHash(h: seq<byte> -> seq<byte>, salt: seq<byte>, user: seq<byte>, password: seq<byte>): nat {
    Big(h(salt + h(user + [58] + password)))
  }

  function ClientPublic(a: nat): nat {
    Exp(G, a, PRIME)
  }

  function Verifier(h: seq<byte> -> seq<byte>, user: seq<byte>, password: seq<byte>, salt: seq<byte>): nat {
    Exp(G, UserHash(h, salt, user, password), PRIME)
  }

  function ServerPublic(v: nat, b: nat): nat {
    var gb := Exp(G, b, PRIME);
    var kv := K * v % PRIME;
    (kv + gb) % PRIME
  }

  function ClientSecret(u: nat, x: nat, keyB: nat, a: nat): nat {
    var gx := Exp(G, x, PRIME);
    var kgx := K * gx % PRIME;
    var diff := (keyB - kgx) % PRIME;
    var ux := u * x % PRIME;
    var aux := (a + ux) % PRIME;
    Exp(diff, aux, PRIME)
  }

  function ServerSecret(u: nat, v: nat, keyA: nat, b: nat): nat {
    var vu := Exp(v, u, PRIME);
    var avu := keyA * vu % PRIME;
    Exp(avu, b, PRIME)
  }

  function ClientSession(h: seq<byte> -> seq<byte>, user: seq<byte>, password: seq<byte>, salt: seq<byte>,
                         keyA: nat, keyB: nat, a: nat): seq<byte> {
    var u := Scramble(h, keyA, keyB);
    var x := UserHash(h, salt, user, password);
    h(MinimalBytes(ClientSecret(u, x, keyB, a)))
  }

  function ServerSession(h: seq<byte> -> seq<byte>, user: seq<byte>, password: seq<byte>, salt: seq<byte>,
                         keyA: nat, keyB: nat, b: nat): seq<byte> {
    var u := Scramble(h, keyA, keyB);
    var v := Verifier(h, user, password, salt);
    h(MinimalBytes(ServerSecret(u, v, keyA, b)))
  }

  lemma HashBound(h: seq<byte> -> seq<byte>, m: seq<byte>)
    requires IsHash(h)
    ensures Big(h(m)) < HASH_BOUND
  {
    BigBound(h(m));
    assert Pow(256, 5) == 0x100_0000_0000;
    PowAdd(256, 5, 5);
    PowAdd(256, 10, 10);
  }

  lemma ProductBelow(u: nat, x: nat, bound: nat)
    requires u < bound && x < bound
    ensures 0 <= u * x < bound * bound
  {
    assert u * x <= u * bound;
    assert u * bound <= (bound - 1) * bound;
  }

  /** The client's two reductions change nothing while the sum stays below the prime, and
      do change the exponent from there on. */
  lemma ExponentUnreduced(u: nat, x: nat, a: nat, n: nat)
    requires n > 0
    ensures (a + u * x % n) % n == a + u * x <==> a + u * x < n
  {
    var m := u * x;
    if a + m < n {
      RemainderIs(m, n, 0, m);
      RemainderIs(a + m, n, 0, a + m);
    }
  }

  /** The algebra of the agreement, for any modulus, generator and multiplier: both secrets
      are g to the power b * (a + u * x). */
  lemma SecretsAgree(n: nat, g: nat, k: nat, u: nat, x: nat, a: nat, b: nat)
    requires n > 0 && a + u * x < n
    ensures u * x >= 0
    ensures var v := Exp(g, x, n);
            var keyA, keyB := Exp(g, a, n), (k * v % n + Exp(g, b, n)) % n;
            Exp((keyB - k * v % n) % n, (a + u * x % n) % n, n)
            == Exp(keyA * Exp(v, u, n) % n, b, n)
  {
    var v := Exp(g, x, n);
    var e := a + u * x;
    SubtractAdded(k * v % n, Exp(g, b, n), n);
    ExponentUnreduced(u, x, a, n);
    ExpOfExp(g, b, e, n);
    ExpOfExp(g, x, u, n);
    assert x * u == u * x && b * e == e * b;
    ExpAdd(g, a, u * x, n);
    ExpOfExp(g, e, b, n);
  }

  /** Client and server derive the same session key, for every salt, user and password and
      all private exponents (b unbounded; a up to the prime less 2^320, far beyond the 128
      random bits drawn). */
  lemma KeysAgree(h: seq<byte> -> seq<byte>, user: seq<byte>, password: seq<byte>, salt: seq<byte>, a: nat, b: nat)
    requires IsHash(h)
    requires a + PRODUCT_BOUND <= PRIME
    ensures var keyA := ClientPublic(a);
            var keyB := ServerPublic(Verifier(h, user, password, salt), b);
            ClientSession(h, user, password, salt, keyA, keyB, a)
            == ServerSession(h, user, password, salt, keyA, keyB, b)
  {
    var keyA := ClientPublic(a);
    var keyB := ServerPublic(Verifier(h, user, password, salt), b);
    var u := Scramble(h, keyA, keyB);
    var x := UserHash(h, salt, user, password);
    HashBound(h, PadBytes(keyA) + PadBytes(keyB));
    HashBound(h, salt + h(user + [58] + password));
    ProductBelow(u, x, HASH_BOUND);
    SecretsAgree(PRIME, G, K, u, x, a, b);
  }

  // --- what the keys depend on -------------------------------------------

  /** The public values: g^a, and k * g^x + g^b with x the hash of the salt and of the hash of
      user, colon and password, all modulo the prime. */
  lemma PublicFormulas(h: seq<byte> -> seq<byte>, user: seq<byte>, password: seq<byte>, salt: seq<byte>, a: nat, b: nat)
    ensures ClientPublic(a) == Pow(2, a) % PRIME
    ensures var x := Big(h(salt + h(user + [':' as int] + password)));
            ServerPublic(Verifier(h, user, password, salt), b) == (K * Pow(2, x) + Pow(2, b)) % PRIME
  {
    hide Pow, Big;
    var x := Big(h(salt + h(user + [':' as int] + password)));
    SumReduced(K, Pow(2, x), Pow(2, b), PRIME);
  }

  lemma SumReduced(k: nat, p: nat, q: nat, n: nat)
    requires n > 0
    ensures (k * (p % n) % n + q % n) % n == (k * p + q) % n
  {
    ReduceFirst(k, p, n);
    var m := k * p;
    assert m == n * (m / n) + m % n && q == n * (q / n) + q % n;
    assert m + q == (m % n + q % n) + n * (m / n + q / n) by {
      assert n * (m / n + q / n) == n * (m / n) + n * (q / n);
    }
    AddMultiple(m % n + q % n, n, m / n + q / n);
  }

  /** The client's session key for any public values:
      H((B - k * g^x)^(a + u * x) mod N), with u the hash of both padded public values. */
  lemma ClientFormula(h: seq<byte> -> seq<byte>, user: seq<byte>, password: seq<byte>, salt: seq<byte>,
                      keyA: nat, keyB: nat, a: nat)
    requires IsHash(h) && a + PRODUCT_BOUND <= PRIME
    ensures Pow(256, 128) > 0
    ensures var u := Big(h(MinimalBytes(keyA % Pow(256, 128)) + MinimalBytes(keyB % Pow(256, 128))));
            var x := Big(h(salt + h(user + [':' as int] + password)));
            ClientSession(h, user, password, salt, keyA, keyB, a)
            == h(MinimalBytes(Pow((keyB - K * Pow(2, x)) % PRIME, Exponent(a, u, x)) % PRIME))
  {
    hide Pow, MinimalBytes, PadBytes, Big, ClientSecret, IsHash;
    PadIsMinimal(keyA);
    PadIsMinimal(keyB);
    var m := PadBytes(keyA) + PadBytes(keyB);
    HashBound(h, m);
    HashBound(h, salt + h(user + [':' as int] + password));
    ClientSecretValue(Big(h(m)), Big(h(salt + h(user + [':' as int] + password))), keyB, a);
  }

  lemma ClientSecretValue(u: nat, x: nat, keyB: nat, a: nat)
    requires u < HASH_BOUND && x < HASH_BOUND && a + PRODUCT_BOUND <= PRIME
    ensures ClientSecret(u, x, keyB, a) == Pow((keyB - K * Pow(2, x)) % PRIME, Exponent(a, u, x)) % PRIME
  {
    hide Pow;
    ProductBelow(u, x, HASH_BOUND);
    Unreduced(K, Pow(2, x), keyB, a, u, x, PRIME);
  }

  lemma Unreduced(k: nat, p: nat, keyB: nat, a: nat, u: nat, x: nat, n: nat)
    requires 0 <= u * x && a + u * x < n
    ensures (a + u * x % n) % n == Exponent(a, u, x)
    ensures (keyB - k * (p % n) % n) % n == (keyB - k * p) % n
  {
    ExponentUnreduced(u, x, a, n);
    ReduceFirst(k, p, n);
    ReduceFirst(keyB, k * p, n);
  }

  /** a + u * x, without any reduction. */
  function Exponent(a: nat, u: nat, x: nat): nat {
    a + u * x
  }

  /** The server's session key for any public value of the client: H((A * (g^x)^u)^b mod N). */
  lemma ServerFormula(h: seq<byte> -> seq<byte>, user: seq<byte>, password: seq<byte>, salt: seq<byte>,
                      keyA: nat, keyB: nat, b: nat)
    ensures Pow(256, 128) > 0
    ensures var u := Big(h(MinimalBytes(keyA % Pow(256, 128)) + MinimalBytes(keyB % Pow(256, 128))));
            var x := Big(h(salt + h(user + [':' as int] + password)));
            ServerSession(h, user, password, salt, keyA, keyB, b)
            == h(MinimalBytes(Pow(keyA * Pow(Pow(2, x), u), b) % PRIME))
  {
    hide Pow, MinimalBytes, PadBytes, Big, ServerSecret;
    PadIsMinimal(keyA);
    PadIsMinimal(keyB);
    var u := Big(h(PadBytes(keyA) + PadBytes(keyB)));
    var x := Big(h(salt + h(user + [':' as int] + password)));
    PlainServerSecret(u, x, keyA, b);
  }

  lemma PlainServerSecret(u: nat, x: nat, keyA: nat, b: nat)
    ensures ServerSecret(u, Exp(2, x, PRIME), keyA, b) == Pow(keyA * Pow(Pow(2, x), u), b) % PRIME
  {
    hide Pow;
    ExpOfRemainder(Pow(2, x), u, PRIME);
    ReduceFirst(keyA, Pow(Pow(2, x), u), PRIME);
    ExpOfRemainder(keyA * Pow(Pow(2, x), u), b, PRIME);
  }

  /** Both sides' key, with each other's public value: H(g^(b * (a + u * x)) mod N). */
  lemma SessionFormula(h: seq<byte> -> seq<byte>, user: seq<byte>, password: seq<byte>, salt: seq<byte>, a: nat, b: nat)
    requires IsHash(h) && a + PRODUCT_BOUND <= PRIME
    ensures Pow(256, 128) > 0
    ensures var keyA := ClientPublic(a);
            var keyB := ServerPublic(Verifier(h, user, password, salt), b);
            var u := Big(h(MinimalBytes(keyA % Pow(256, 128)) + MinimalBytes(keyB % Pow(256, 128))));
            var x := Big(h(salt + h(user + [':' as int] + password)));
            var key := h(MinimalBytes(Pow(2, Times(b, Exponent(a, u, x))) % PRIME));
            ClientSession(h, user, password, salt, keyA, keyB, a) == key
            && ServerSession(h, user, password, salt, keyA, keyB, b) == key
  {
    var keyA := ClientPublic(a);
    var keyB := ServerPublic(Verifier(h, user, password, salt), b);
    PadIsMinimal(keyA);
    PadIsMinimal(keyB);
    KeysAgree(h, user, password, salt, a, b);
    var u := Big(h(PadBytes(keyA) + PadBytes(keyB)));
    var x := Big(h(salt + h(user + [':' as int] + password)));
    hide Pow, MinimalBytes, PadBytes, Big, ClientSession;
    ServerSecretValue(u, x, a, b);
  }

  function Times(b: nat, e: nat): nat {
    b * e
  }

  lemma ServerSecretValue(u: nat, x: nat, a: nat, b: nat)
    ensures ServerSecret(u, Exp(2, x, PRIME), Exp(2, a, PRIME), b) == Pow(2, Times(b, Exponent(a, u, x))) % PRIME
  {
    hide Pow;
    ExpOfExp(2, x, u, PRIME);
    assert x * u == u * x;
    ExpAdd(2, a, u * x, PRIME);
    ExpOfExp(2, a + u * x, b, PRIME);
    assert (a + u * x) * b == b * (a + u * x);
  }

  /** Two different messages with one digest. */
  predicate Collide(h: seq<byte> -> seq<byte>, m: seq<byte>, m2: seq<byte>) {
    m != m2 && h(m) == h(m2)
  }

  lemma {:induction false} BigInjective(s: seq<byte>, t: seq<byte>)
    requires |s| == |t| && Big(s) == Big(t)
    ensures s == t
  {
    if s != [] {
      var n := |s| - 1;
      assert Big(s[..n]) == Big(s) / 256 == Big(t[..n]);
      BigInjective(s[..n], t[..n]);
      assert s == s[..n] + [s[n]] && t == t[..n] + [t[n]];
    }
  }

  lemma SameEnd(a: seq<byte>, c: seq<byte>, b: seq<byte>, d: seq<byte>)
    requires a + c == b + d && |c| == |d|
    ensures a == b && c == d
  {
    assert (a + c)[..|a|] == a && (b + d)[..|b|] == b;
    assert (a + c)[|a|..] == c && (b + d)[|b|..] == d;
  }

  /** One x comes from one salt and one text of user, colon and password, unless the hash gives
      two of the messages in question one digest. */
  lemma UserHashDepends(h: seq<byte> -> seq<byte>, salt: seq<byte>, user: seq<byte>, password: seq<byte>,
                        salt2: seq<byte>, user2: seq<byte>, password2: seq<byte>)
    requires IsHash(h) && UserHash(h, salt, user, password) == UserHash(h, salt2, user2, password2)
    ensures var inner, inner2 := user + [':' as int] + password, user2 + [':' as int] + password2;
            || (salt == salt2 && inner == inner2)
            || Collide(h, inner, inner2)
            || Collide(h, salt + h(inner), salt2 + h(inner2))
  {
    var inner, inner2 := user + [':' as int] + password, user2 + [':' as int] + password2;
    var outer, outer2 := salt + h(inner), salt2 + h(inner2);
    BigInjective(h(outer), h(outer2));
    if outer == outer2 {
      SameEnd(salt, h(inner), salt2, h(inner2));
    }
  }

  /** Another password for the same user, another user with the same password, or another salt
      gives another x, unless two different messages collide. */
  lemma OtherPasswordOtherHash(h: seq<byte> -> seq<byte>, salt: seq<byte>, user: seq<byte>, password: seq<byte>,
                               salt2: seq<byte>, user2: seq<byte>, password2: seq<byte>)
    requires IsHash(h) && UserHash(h, salt, user, password) == UserHash(h, salt2, user2, password2)
    ensures var inner, inner2 := user + [':' as int] + password, user2 + [':' as int] + password2;
            || Collide(h, inner, inner2)
            || Collide(h, salt + h(inner), salt2 + h(inner2))
            || (salt == salt2 && (user == user2 <==> password == password2))
  {
    UserHashDepends(h, salt, user, password, salt2, user2, password2);
    var inner, inner2 := user + [':' as int] + password, user2 + [':' as int] + password2;
    if inner == inner2 && user == user2 {
      assert inner[|user| + 1..] == password && inner2[|user| + 1..] == password2;
    } else if inner == inner2 && password == password2 {
      SameEnd(user + [':' as int], password, user2 + [':' as int], password);
      SameEnd(user, [':' as int], user2, [':' as int]);
    }
  }

  /** With one of the public values fixed, the other one, below 2^1024, decides u, unless two
      different messages collide. */
  lemma ScrambleDepends(h: seq<byte> -> seq<byte>, keyA: nat, keyB: nat, keyA2: nat, keyB2: nat)
    requires IsHash(h) && Scramble(h, keyA, keyB) == Scramble(h, keyA2, keyB2)
    requires keyA < Pow(256, 128) && keyB < Pow(256, 128) && keyA2 < Pow(256, 128) && keyB2 < Pow(256, 128)
    ensures || Collide(h, MinimalBytes(keyA) + MinimalBytes(keyB), MinimalBytes(keyA2) + MinimalBytes(keyB2))
            || (MinimalBytes(keyA) + MinimalBytes(keyB) == MinimalBytes(keyA2) + MinimalBytes(keyB2)
                && (keyA == keyA2 <==> keyB == keyB2))
  {
    hide Pow, PadBytes, MinimalBytes, Big;
    PadOfSmall(keyA);
    PadOfSmall(keyB);
    PadOfSmall(keyA2);
    PadOfSmall(keyB2);
    var pA, pB, pA2, pB2 := PadBytes(keyA), PadBytes(keyB), PadBytes(keyA2), PadBytes(keyB2);
    BigInjective(h(pA + pB), h(pA2 + pB2));
    if pA + pB == pA2 + pB2 {
      if keyA == keyA2 {
        SameStart(pA, pB, pB2);
      } else if keyB == keyB2 {
        SameEnd(pA, pB, pA2, pB2);
      }
    }
  }

  lemma SameStart(a: seq<byte>, c: seq<byte>, d: seq<byte>)
    requires a + c == a + d
    ensures c == d
  {
    assert (a + c)[|a|..] == c && (a + d)[|a|..] == d;
  }

  lemma PadOfSmall(v: nat)
    requires v < Pow(256, 128)
    ensures PadBytes(v) == MinimalBytes(v) && Big(PadBytes(v)) == v
  {
    PadIsMinimal(v);
    PadRoundTrip(v);
    hide PadBytes, MinimalBytes, Big, Pow;
    RemainderIs(v, Pow(256, 128), 0, v);
  }

  /** The padding drops leading zeros, so different pairs of public values can be hashed as one
      message: here (1, 0x203) and (0x102, 3). */
  lemma PaddedPairsCollide(h: seq<byte> -> seq<byte>)
    ensures Scramble(h, 1, 0x203) == Scramble(h, 0x102, 3)
  {
    SmallPads();
    assert [1] + [2, 3] == [1, 2] + [3];
  }

  lemma SmallPads()
    ensures PadBytes(1) == [1] && PadBytes(3) == [3] && PadBytes(0x203) == [2, 3] && PadBytes(0x102) == [1, 2]
  {
    assert Pow(256, 2) == 0x1_0000;
    PowAdd(256, 2, 126);
    PowPositive(126);
    hide PadBytes, Pow;
    PadOfSmall(1);
    PadOfSmall(3);
    PadOfSmall(0x203);
    PadOfSmall(0x102);
  }

  lemma {:induction false} PowPositive(e: nat)
    ensures Pow(256, e) >= 1
  {
    if e > 0 {
      PowPositive(e - 1);
    }
  }

  /** Every exponent the driver can draw satisfies the bound. */
  lemma DrawnExponentsFit(a: nat)
    requires a < 0x1_0000_0000_0000_0000_0000_0000_0000_0000
    ensures a + PRODUCT_BOUND <= PRIME
  {
  }
}
