// sq_mp of enc.c and the four rounds of key agreement of ecftp.c (do_dh_client and do_dh_server).
module KeyAgreement {
  import opened Words

  const TWO_64: nat := 0x1_0000_0000_0000_0000
  const DH_P: nat := TWO_32 - 99
  const DH_G: nat := 5

  function Pow(a: nat, b: nat): nat {
    if b == 0 then 1 else a * Pow(a, b - 1)
  }

  // The loop of sq_mp from a given state, with products that wrap at 64 bits.
  function Squarings(a: nat, b: nat, c: nat, y: nat): nat
    requires c > 0
    decreases b
  {
    if b == 0 then y
    else Squarings(a * a % TWO_64 % c, b / 2, c, if b % 2 == 1 then y * a % TWO_64 % c else y)
  }

  method SqMp(a0: nat, b0: nat, c: nat) returns (y: nat)
    requires a0 < TWO_64 && b0 < TWO_64 && 0 < c < TWO_64
    ensures y == Squarings(a0, b0, c, 1)
    ensures c > 1 && ((a0 < TWO_32 && c <= TWO_32) || TWO_64 % c == 0) ==> y == Pow(a0, b0) % c
  {
    var a: nat, b: nat := a0, b0;
    y := 1;
    while b > 0
      invariant Squarings(a, b, c, y) == Squarings(a0, b0, c, 1)
    {
      var r := b % 2;
      if r == 1 {
        y := y * a % TWO_64 % c;
      }
      a := a * a % TWO_64 % c;
      b := b / 2;
    }
    if c > 1 && TWO_64 % c == 0 {
      WrapKeeps(a0, b0, c, 1);
    } else if a0 < TWO_32 && 1 < c <= TWO_32 {
      SquaringsArePower(a0, b0, c, 1);
    }
  }

  lemma SmallProduct(x: nat, y: nat)
    requires x < TWO_32 && y < TWO_32
    ensures x * y % TWO_64 == x * y
  {
    if x > 0 && y > 0 {
      MulMono2(x, TWO_32 - 1, y, TWO_32 - 1);
    }
  }

  // Factors may be reduced before a product is.
  lemma ModMul(x: nat, y: nat, c: nat)
    requires c > 0
    ensures (x % c) * y % c == x * y % c
  {
    var q := x / c;
    assert x == q * c + x % c;
    assert x * y == (x % c) * y + (q * y) * c by {
      assert x * y == (q * c + x % c) * y;
      assert (q * c) * y == (q * y) * c;
    }
    AddMultiple((x % c) * y, q * y, c);
  }

  lemma AddMultiple(r: nat, k: nat, c: nat)
    requires c > 0
    ensures (r + k * c) % c == r % c
  {
    assert r == (r / c) * c + r % c;
    assert r + k * c == (r / c + k) * c + r % c;
    ModUnique(r + k * c, c, r / c + k, r % c);
  }

  lemma {:induction false} PowMod(a: nat, b: nat, c: nat)
    requires c > 0
    ensures Pow(a % c, b) % c == Pow(a, b) % c
  {
    if b > 0 {
      var p, q := Pow(a % c, b - 1), Pow(a, b - 1);
      PowMod(a, b - 1, c);
      ModMul(a, p, c);
      ModMul(p, a, c);
      ModMul(q, a, c);
      assert a * p == p * a && a * q == q * a;
    }
  }

  lemma {:induction false} PowSquare(a: nat, n: nat)
    ensures Pow(a * a, n) == Pow(a, 2 * n)
  {
    if n > 0 {
      PowSquare(a, n - 1);
      assert Pow(a, 2 * n) == a * (a * Pow(a, 2 * n - 2));
      assert a * (a * Pow(a, 2 * n - 2)) == (a * a) * Pow(a, 2 * n - 2);
    }
  }

  // From any state whose factors fit in 32 bits the loop ends with y times a to the b, modulo c.
  lemma {:induction false} SquaringsArePower(a: nat, b: nat, c: nat, y: nat)
    requires a < TWO_32 && y < c <= TWO_32
    ensures Squarings(a, b, c, y) == y * Pow(a, b) % c
    decreases b
  {
    hide Pow;
    if b == 0 {
      PowZero(a);
      ModUnique(y, c, 0, y);
    } else {
      SmallProduct(a, a);
      SmallProduct(y, a);
      var a1, y1, n := a * a % c, if b % 2 == 1 then y * a % c else y, b / 2;
      SquaringsArePower(a1, n, c, y1);
      OneStep(a, b, c, y);
    }
  }

  lemma PowZero(a: nat)
    ensures Pow(a, 0) == 1
  {
  }

  lemma OneStep(a: nat, b: nat, c: nat, y: nat)
    requires b > 0 && y < c
    ensures (if b % 2 == 1 then y * a % c else y) * Pow(a * a % c, b / 2) % c == y * Pow(a, b) % c
  {
    hide Pow;
    var n := b / 2;
    PowMod(a * a, n, c);
    PowSquare(a, n);
    if b % 2 == 1 {
      OddStep(a, n, c, y, Pow(a * a % c, n));
    } else {
      EvenStep(y, Pow(a * a % c, n), Pow(a, 2 * n), c);
    }
  }

  lemma OddStep(a: nat, n: nat, c: nat, y: nat, p: nat)
    requires y < c && p % c == Pow(a, 2 * n) % c
    ensures (y * a % c) * p % c == y * Pow(a, 2 * n + 1) % c
  {
    hide Pow;
    SameProduct(y * a, p, Pow(a, 2 * n), c);
    PowNext(a, 2 * n, y);
  }

  lemma EvenStep(y: nat, p: nat, q: nat, c: nat)
    requires y < c && p % c == q % c
    ensures y * p % c == y * q % c
  {
    SameProduct(y, p, q, c);
    ModUnique(y, c, 0, y);
  }

  lemma PowNext(a: nat, b: nat, y: nat)
    ensures (y * a) * Pow(a, b) == y * Pow(a, b + 1)
  {
  }

  // y % c times p is, modulo c, y times any q that p is congruent to.
  lemma SameProduct(y: nat, p: nat, q: nat, c: nat)
    requires c > 0 && p % c == q % c
    ensures (y % c) * p % c == y * q % c
  {
    ModMul(y, p, c);
    ModMul(p, y, c);
    ModMul(q, y, c);
    assert p * y == y * p && q * y == y * q;
  }

  // A remainder of a remainder, when the one modulus divides the other.
  lemma WrapThenReduce(x: nat, c: nat)
    requires c > 0 && TWO_64 % c == 0
    ensures x % TWO_64 % c == x % c
  {
    var q := x / TWO_64;
    assert x == x % TWO_64 + q * TWO_64;
    assert TWO_64 == (TWO_64 / c) * c;
    assert q * TWO_64 == (q * (TWO_64 / c)) * c;
    AddMultiple(x % TWO_64, q * (TWO_64 / c), c);
  }

  // Modulo a power of two up to 2^64 the wrap does no harm, whatever the factors.
  lemma {:induction false} WrapKeeps(a: nat, b: nat, c: nat, y: nat)
    requires c > 1 && TWO_64 % c == 0 && y < c
    ensures Squarings(a, b, c, y) == y * Pow(a, b) % c
    decreases b
  {
    hide Pow;
    if b == 0 {
      PowZero(a);
      ModUnique(y, c, 0, y);
    } else {
      WrapThenReduce(a * a, c);
      WrapThenReduce(y * a, c);
      WrapKeeps(a * a % c, b / 2, c, if b % 2 == 1 then y * a % c else y);
      OneStep(a, b, c, y);
    }
  }

  // sq_mp's result is the power it is documented to be, for every base below the bound.
  ghost predicate RightBelow(bound: nat, c: nat)
    requires c > 0
  {
    forall a: nat, b: nat :: a < bound && b < TWO_64 ==> Squarings(a, b, c, 1) == Pow(a, b) % c
  }

  // The square of 2^32 is lost, and so is every power from it.
  lemma LostSquare(c: nat)
    requires c > 1
    ensures Squarings(TWO_32, 2, c, 1) == 0 && Pow(TWO_32, 2) == TWO_64
  {
    hide Squarings, Pow;
    PowTwo(TWO_32);
    SquaringsStep(TWO_32, 2, c, 1);
    LastTurn(0, c);
  }

  // With the base reduced first, sq_mp is right for exactly the moduli up to 2^32 and the powers of two.
  lemma SqMpRightReduced(c: nat)
    requires 1 < c < TWO_64
    ensures RightBelow(c, c) <==> c <= TWO_32 || TWO_64 % c == 0
  {
    hide Squarings, Pow;
    if c <= TWO_32 || TWO_64 % c == 0 {
      forall a: nat, b: nat | a < c && b < TWO_64
        ensures Squarings(a, b, c, 1) == Pow(a, b) % c
      {
        if c <= TWO_32 {
          SquaringsArePower(a, b, c, 1);
        } else {
          WrapKeeps(a, b, c, 1);
        }
      }
    } else {
      LostSquare(c);
    }
  }

  // For bases as they come, only the powers of two are left.
  lemma SqMpRight(c: nat)
    requires 1 < c < TWO_64
    ensures RightBelow(TWO_64, c) <==> TWO_64 % c == 0
  {
    hide Squarings, Pow;
    if TWO_64 % c == 0 {
      forall a: nat, b: nat | a < TWO_64 && b < TWO_64
        ensures Squarings(a, b, c, 1) == Pow(a, b) % c
      {
        WrapKeeps(a, b, c, 1);
      }
    } else {
      LostSquare(c);
    }
  }

  // With a modulus up to 2^32, such as the program's own, a base is right for every exponent exactly
  // when what the first square loses above 64 bits is a multiple of the modulus. Below 2^32 it loses nothing.
  lemma SqMpRightBase(a: nat, c: nat)
    requires a < TWO_64 && 1 < c <= TWO_32
    ensures (forall b: nat :: b < TWO_64 ==> Squarings(a, b, c, 1) == Pow(a, b) % c)
               <==> (a * a / TWO_64) * TWO_64 % c == 0
  {
    hide Squarings, Pow;
    LostPart(a * a, c);
    if a * a % TWO_64 % c == a * a % c {
      forall b: nat | b < TWO_64
        ensures Squarings(a, b, c, 1) == Pow(a, b) % c
      {
        FirstSquareRight(a, b, c);
      }
    } else {
      SquareIs(a, c);
    }
  }

  lemma LostPart(x: nat, c: nat)
    requires c > 0
    ensures (x / TWO_64) * TWO_64 % c == 0 <==> x % TWO_64 % c == x % c
  {
    var low, lost := x % TWO_64, (x / TWO_64) * TWO_64;
    assert x == low + lost;
    if lost % c == 0 {
      AddMultiple(low, lost / c, c);
    } else if low % c == x % c {
      Congruent(low, lost, c);
    }
  }

  lemma FirstSquareRight(a: nat, b: nat, c: nat)
    requires a < TWO_64 && 1 < c <= TWO_32 && a * a % TWO_64 % c == a * a % c
    ensures Squarings(a, b, c, 1) == Pow(a, b) % c
  {
    hide Pow;
    if b == 0 {
      PowZero(a);
      ModUnique(1, c, 0, 1);
    } else {
      SquaringsArePower(a * a % c, b / 2, c, if b % 2 == 1 then a % c else 1);
      OneStep(a, b, c, 1);
    }
  }

  lemma SquaringsStep(a: nat, b: nat, c: nat, y: nat)
    requires b > 0 && c > 0
    ensures Squarings(a, b, c, y)
      == Squarings(a * a % TWO_64 % c, b / 2, c, if b % 2 == 1 then y * a % TWO_64 % c else y)
  {
  }

  lemma LastTurn(a: nat, c: nat)
    requires c > 0
    ensures Squarings(a, 1, c, 1) == a % TWO_64 % c
  {
    assert 1 * a == a;
  }

  lemma PowTwo(a: nat)
    ensures Pow(a, 2) == a * a
  {
    assert Pow(a, 1) == a * Pow(a, 0) == a;
  }

  lemma SquareIs(a: nat, c: nat)
    requires a < TWO_64 && 1 < c <= TWO_32
    ensures Squarings(a, 2, c, 1) == a * a % TWO_64 % c && Pow(a, 2) == a * a
  {
    hide Squarings, Pow;
    SquaringsStep(a, 2, c, 1);
    PowTwo(a);
    Reduced(a * a % TWO_64, c);
    LastTurn(a * a % TWO_64 % c, c);
  }

  lemma Reduced(x: nat, c: nat)
    requires 0 < c <= TWO_32
    ensures x % c % TWO_64 % c == x % c
  {
    ModUnique(x % c, TWO_64, 0, x % c);
    ModUnique(x % c, c, 0, x % c);
  }

  // Adding what is not a multiple changes the remainder.
  lemma Congruent(x: nat, y: nat, c: nat)
    requires c > 0 && (x + y) % c == x % c
    ensures y % c == 0
  {
    var p, q := (x + y) / c, x / c;
    assert x + y == p * c + x % c && x == q * c + x % c;
    assert y == (p - q) * c by { assert (p - q) * c == p * c - q * c; }
    FactorSign(p - q, c);
    ModUnique(y, c, p - q, 0);
  }

  lemma FactorSign(k: int, c: nat)
    requires c > 0 && k * c >= 0
    ensures k >= 0
  {
  }

  // Modulo 1 the loop is right exactly when it has a turn, because y starts as 1.
  lemma {:induction false} SqMpModOne(a: nat, b: nat, y: nat)
    requires y < 2
    ensures Squarings(a, b, 1, y) == Pow(a, b) % 1 <==> b > 0 || y == 0
    decreases b
  {
    if b > 0 {
      SqMpModOne(a * a % TWO_64 % 1, b / 2, if b % 2 == 1 then y * a % TWO_64 % 1 else y);
    }
  }

  // Under the program's own modulus, a public value of 2^32 gives the secret 2 the shared value 0.
  lemma SqMpWraps()
    ensures Squarings(TWO_32, 2, DH_P, 1) == 0 && Pow(TWO_32, 2) % DH_P == 9801
  {
    LostSquare(DH_P);
    ModUnique(TWO_64, DH_P, TWO_32 + 99, 9801);
  }

  // ---------- the four rounds ----------

  // What both ends hold when round i is over.
  function Shared(a: nat, b: nat): nat {
    Pow(DH_G, a * b) % DH_P
  }

  lemma {:induction false} PowPow(g: nat, a: nat, b: nat)
    ensures Pow(Pow(g, a), b) == Pow(g, a * b)
  {
    if b > 0 {
      PowPow(g, a, b - 1);
      assert a * b == a + a * (b - 1);
      PowAdd(g, a, a * (b - 1));
    }
  }

  lemma {:induction false} PowAdd(g: nat, a: nat, b: nat)
    ensures Pow(g, a + b) == Pow(g, a) * Pow(g, b)
  {
    if a > 0 {
      PowAdd(g, a - 1, b);
      assert g * (Pow(g, a - 1) * Pow(g, b)) == (g * Pow(g, a - 1)) * Pow(g, b);
    }
  }

  // Four secrets, as (rand() % (dh_p - 2)) + 2 makes them.
  type Secrets = s: seq<nat> | |s| == 4 && forall i :: 0 <= i < 4 ==> 2 <= s[i] < DH_P witness [2, 2, 2, 2]

  // The public value of a secret, and the word of the key that the other end's public value gives.
  function Public(secret: nat): nat {
    Squarings(DH_G, secret, DH_P, 1)
  }

  function KeyWord(public: nat, secret: nat): nat {
    Squarings(public, secret, DH_P, 1) % TWO_32
  }

  // A public value raised to the other secret is the shared value, from either side.
  lemma SharedFrom(a: nat, b: nat)
    ensures KeyWord(Public(a), b) == Shared(a, b) == Shared(b, a)
  {
    hide Pow, Squarings;
    SquaringsArePower(DH_G, a, DH_P, 1);
    SquaringsArePower(Public(a), b, DH_P, 1);
    PowMod(Pow(DH_G, a), b, DH_P);
    PowPow(DH_G, a, b);
    assert a * b == b * a;
    ModUnique(Shared(a, b), TWO_32, 0, Shared(a, b));
  }

  // Both programs and the connection between them. A program's counter is twice its round, plus one
  // when it has done the first of the round's two transfers.
  datatype Talk = Talk(client: nat, server: nat, toServer: seq<nat>, toClient: seq<nat>,
                       held: nat, clientKey: seq<nat>, serverKey: seq<nat>)

  const START := Talk(0, 0, [], [], 0, [], [])

  // One transfer by the client or the server; a read waits until there is something to read.
  function Step(t: Talk, a: Secrets, b: Secrets, byClient: bool): Talk {
    if byClient then
      if t.client >= 8 then t
      else if t.client % 2 == 0 then
        t.(client := t.client + 1, toServer := t.toServer + [Public(a[t.client / 2])])
      else if t.toClient == [] then t
      else t.(client := t.client + 1, toClient := t.toClient[1..],
              clientKey := t.clientKey + [KeyWord(t.toClient[0], a[t.client / 2])])
    else
      if t.server >= 8 then t
      else if t.server % 2 == 0 then
        if t.toServer == [] then t
        else t.(server := t.server + 1, toServer := t.toServer[1..], held := t.toServer[0])
      else t.(server := t.server + 1, toClient := t.toClient + [Public(b[t.server / 2])],
              serverKey := t.serverKey + [KeyWord(t.held, b[t.server / 2])])
  }

  function Run(a: Secrets, b: Secrets, schedule: seq<bool>): Talk {
    if schedule == [] then START
    else Step(Run(a, b, schedule[..|schedule| - 1]), a, b, schedule[|schedule| - 1])
  }

  predicate KeysSoFar(key: seq<nat>, a: Secrets, b: Secrets, n: nat) {
    |key| == n <= 4 && forall i :: 0 <= i < n ==> key[i] == Shared(a[i], b[i])
  }

  // Where the message of the current round is, and what the keys hold.
  predicate InStep(t: Talk, a: Secrets, b: Secrets) {
    var i := t.client / 2;
    && t.client <= 8 && t.server <= 8
    && KeysSoFar(t.clientKey, a, b, i)
    && KeysSoFar(t.serverKey, a, b, t.server / 2)
    && (if t.client % 2 == 0 then
          t.server == t.client && t.toServer == [] && t.toClient == []
        else
          && i < 4
          && t.client - 1 <= t.server <= t.client + 1
          && t.toServer == (if t.server == t.client - 1 then [Public(a[i])] else [])
          && t.toClient == (if t.server == t.client + 1 then [Public(b[i])] else [])
          && (t.server == t.client ==> t.held == Public(a[i])))
  }

  lemma StepKeeps(t: Talk, a: Secrets, b: Secrets, byClient: bool)
    requires InStep(t, a, b)
    ensures InStep(Step(t, a, b, byClient), a, b)
  {
    hide Public, KeyWord, Shared;
    if t.client % 2 == 1 {
      SharedFrom(a[t.client / 2], b[t.client / 2]);
      SharedFrom(b[t.client / 2], a[t.client / 2]);
    }
  }

  lemma {:induction false} RunKeeps(a: Secrets, b: Secrets, schedule: seq<bool>)
    ensures InStep(Run(a, b, schedule), a, b)
  {
    hide InStep, Step;
    if schedule == [] {
      StartInStep(a, b);
    } else {
      RunKeeps(a, b, schedule[..|schedule| - 1]);
      StepKeeps(Run(a, b, schedule[..|schedule| - 1]), a, b, schedule[|schedule| - 1]);
    }
  }

  lemma StartInStep(a: Secrets, b: Secrets)
    ensures InStep(START, a, b)
  {
  }

  // Whatever the interleaving, once both have finished they hold the same four words, and the words are
  // the shared secrets of section 2.1.1 of RFC 2631.
  lemma KeysAgree(a: Secrets, b: Secrets, schedule: seq<bool>)
    requires Run(a, b, schedule).client == 8 && Run(a, b, schedule).server == 8
    ensures Run(a, b, schedule).clientKey == Run(a, b, schedule).serverKey
    ensures |Run(a, b, schedule).clientKey| == 4
    ensures forall i :: 0 <= i < 4 ==> Run(a, b, schedule).clientKey[i] == Shared(a[i], b[i])
  {
    hide Run, Shared;
    RunKeeps(a, b, schedule);
  }

  // Neither waits for ever: until both have finished, one of them can move.
  lemma NeverStuck(a: Secrets, b: Secrets, schedule: seq<bool>)
    requires Run(a, b, schedule).client < 8 || Run(a, b, schedule).server < 8
    ensures exists byClient :: Step(Run(a, b, schedule), a, b, byClient) != Run(a, b, schedule)
  {
    hide Run, Public, KeyWord;
    RunKeeps(a, b, schedule);
    var t := Run(a, b, schedule);
    var byClient := t.client % 2 == 0 || t.server == t.client + 1;
    assert Step(t, a, b, byClient).client != t.client || Step(t, a, b, byClient).server != t.server;
  }
}
