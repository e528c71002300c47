/** Hashing and comparing the strings and addresses that serve as table keys. */
module StringHash {
  import opened Words
  import opened MetadataTable

  /** `(unsigned long)s[i]` for a signed `char`. */
  function Widen(c: bv8): bv64 {
    if c < 0x80 then c as bv64 else (c as bv64) | 0xFFFF_FFFF_FFFF_FF00
  }

  /** What each of the four statements of the loop body makes of its character, by case label. */
  function Spread(tag: nat, c: bv64): bv64 {
    match tag
    case 0 => (c << 17) ^ (c << 11) ^ (c << 5) ^ (c >> 1)
    case 3 => (c << 14) + (c << 7) + (c << 4) + c
    case 2 => (!c << 11) | ((c << 3) ^ (c >> 1))
    case _ => (c << 16) | (c << 9) | (c << 2) | (c & 3)
  }

  function Plus(x: bv64, y: bv64): bv64 {
    x + y
  }

  function Minus(x: bv64, y: bv64): bv64 {
    x - y
  }

  function Flip(x: bv64, y: bv64): bv64 {
    x ^ y
  }

  /** The four statements. */
  function Mix(tag: nat, c: bv64, h: bv64): bv64 {
    match tag
    case 0 => Plus(h, Spread(0, c))
    case 3 => Flip(h, Spread(3, c))
    case 2 => Flip(h, Spread(2, c))
    case _ => Minus(h, Spread(1, c))
  }

  /** The hash read off the string one character at a time: the statement that a character gets
      is chosen by how many characters remain. */
  function HashFrom(s: seq<bv8>, i: nat, h: bv64): bv64
    requires i <= |s|
    decreases |s| - i
  {
    if i == |s| then h else HashFrom(s, i + 1, Mix((|s| - i) % 4, Widen(s[i]), h))
  }

  /** The unrolled loop, entered in the middle at `length % 4`, reads every character once, in
      order. `s` is the object's storage, which goes on past the string with its terminator. */
  method Hash(s: seq<bv8>, length: nat) returns (h: bv64)
    requires length <= |s|
    ensures h == HashFrom(s[..length], 0, 0)
  {
    hide Mix, Widen;
    ghost var str := s[..length];
    var i: nat;
    i, h := HashEntry(s, str, length);
    while i < length
      invariant i <= length && (length - i) % 4 == 0
      invariant HashFrom(str, 0, 0) == HashFrom(str, i, h)
    {
      i, h := HashFour(s, str, i, h);
    }
  }

  /** One statement of the loop. */
  lemma HashStep(s: seq<bv8>, str: seq<bv8>, i: nat, tag: nat, h: bv64)
    requires str <= s && i < |str| && (|str| - i) % 4 == tag
    ensures HashFrom(str, i, h) == HashFrom(str, i + 1, Mix(tag, Widen(s[i]), h))
  {
    hide Mix, Widen;
  }

  /** The partial first turn, entered at the label `length % 4`. */
  method HashEntry(s: seq<bv8>, ghost str: seq<bv8>, length: nat) returns (i: nat, h: bv64)
    requires str <= s && |str| == length
    ensures i <= |str| && (|str| - i) % 4 == 0
    ensures HashFrom(str, 0, 0) == HashFrom(str, i, h)
  {
    hide Mix, Widen, HashFrom;
    h := 0;
    i := 0;
    var entry := length % 4;
    if entry >= 3 {
      HashStep(s, str, i, 3, h);
      h := Mix(3, Widen(s[i]), h);
      i := i + 1;
    }
    if entry >= 2 {
      HashStep(s, str, i, 2, h);
      h := Mix(2, Widen(s[i]), h);
      i := i + 1;
    }
    if entry >= 1 {
      HashStep(s, str, i, 1, h);
      h := Mix(1, Widen(s[i]), h);
      i := i + 1;
    }
  }

  /** One full turn of the loop. */
  method HashFour(s: seq<bv8>, ghost str: seq<bv8>, i: nat, h: bv64) returns (j: nat, k: bv64)
    requires str <= s && i + 4 <= |str| && (|str| - i) % 4 == 0
    ensures j == i + 4 && HashFrom(str, i, h) == HashFrom(str, j, k)
  {
    hide Mix, Widen, HashFrom;
    j, k := i, h;
    HashStep(s, str, j, 0, k);
    k := Mix(0, Widen(s[j]), k);
    j := j + 1;
    HashStep(s, str, j, 3, k);
    k := Mix(3, Widen(s[j]), k);
    j := j + 1;
    HashStep(s, str, j, 2, k);
    k := Mix(2, Widen(s[j]), k);
    j := j + 1;
    HashStep(s, str, j, 1, k);
    k := Mix(1, Widen(s[j]), k);
    j := j + 1;
  }

  // ---- Comparing ------------------------------------------------------------------------------

  /** The character `strcmp` sees: the terminator follows the string. */
  function CharAt(s: seq<bv8>, i: nat): bv8 {
    if i < |s| then s[i] else 0
  }

  /** `0 == strcmp(a, b)` */
  predicate StrcmpEqual(a: seq<bv8>, b: seq<bv8>, i: nat)
    decreases |a| - i
  {
    if CharAt(a, i) != CharAt(b, i) then false
    else if i >= |a| || a[i] == 0 then true
    else StrcmpEqual(a, b, i + 1)
  }

  /** `string_equalp` on two distinct strings. */
  predicate StringEqual(a: seq<bv8>, b: seq<bv8>) {
    |a| == |b| && StrcmpEqual(a, b, 0)
  }

  /** No NUL before the last character. */
  predicate NulFree(s: seq<bv8>) {
    forall i :: 0 <= i < |s| - 1 ==> s[i] != 0
  }

  lemma {:induction false} StrcmpMeansPrefix(a: seq<bv8>, b: seq<bv8>, i: nat)
    requires |a| == |b| && i <= |a|
    ensures StrcmpEqual(a, b, i) <==>
      exists n :: i <= n <= |a| && a[i..n] == b[i..n] && (n == |a| || a[n] == b[n] == 0)
    decreases |a| - i
  {
    if i < |a| {
      if a[i] == b[i] && a[i] != 0 {
        StrcmpMeansPrefix(a, b, i + 1);
        if StrcmpEqual(a, b, i + 1) {
          var n :| i + 1 <= n <= |a| && a[i + 1..n] == b[i + 1..n] && (n == |a| || a[n] == b[n] == 0);
          assert a[i..n] == [a[i]] + a[i + 1..n] && b[i..n] == [b[i]] + b[i + 1..n];
        }
        if n :| i <= n <= |a| && a[i..n] == b[i..n] && (n == |a| || a[n] == b[n] == 0) {
          if n > i {
            assert a[i + 1..n] == a[i..n][1..] && b[i + 1..n] == b[i..n][1..];
          }
        }
      } else if a[i] == b[i] {
        assert a[i..i] == b[i..i];
      } else {
        forall n | i < n <= |a| ensures a[i..n] != b[i..n] {
          assert a[i..n][0] != b[i..n][0];
        }
      }
    } else {
      assert a[i..i] == b[i..i];
    }
  }

  /** The string with its last character turned into NUL, or away from it. */
  function LastFlipped(a: seq<bv8>): (b: seq<bv8>)
    requires a != []
    ensures |b| == |a|
  {
    a[|a| - 1 := if a[|a| - 1] == 0 then 1 else 0]
  }

  /** Past an embedded NUL, `strcmp` sees no difference. */
  lemma FlippedComparesEqual(a: seq<bv8>)
    requires !NulFree(a)
    ensures a != [] && StringEqual(a, LastFlipped(a))
  {
    var i :| 0 <= i < |a| - 1 && a[i] == 0;
    var b := LastFlipped(a);
    StrcmpMeansPrefix(a, b, 0);
    assert a[0..i] == b[0..i];
  }

  /** Comparing equal means having equal contents for every partner exactly when the string has no
      NUL before its last character. */
  lemma EqualMeansSameContentsIff(a: seq<bv8>)
    ensures NulFree(a) <==> forall b :: StringEqual(a, b) ==> a == b
  {
    if NulFree(a) {
      forall b | StringEqual(a, b) ensures a == b {
        StrcmpMeansPrefix(a, b, 0);
        var n :| 0 <= n <= |a| && a[0..n] == b[0..n] && (n == |a| || a[n] == b[n] == 0);
        assert a[0..n] + a[n..] == a && b[0..n] + b[n..] == b;
        if n == |a| - 1 { assert a[n..] == b[n..]; }
      }
    } else {
      FlippedComparesEqual(a);
      assert a[|a| - 1] != LastFlipped(a)[|a| - 1];
    }
  }

  lemma {:induction false} StringEqualReflexive(a: seq<bv8>)
    ensures StringEqual(a, a)
  {
    StrcmpMeansPrefix(a, a, 0);
    assert a[0..|a|] == a[0..|a|];
  }

  lemma SpreadTells0(c: bv8, d: bv8)
    requires c != d
    ensures Spread(0, Widen(c)) != Spread(0, Widen(d))
  {
  }

  lemma SpreadTells1(c: bv8, d: bv8)
    requires c != d
    ensures Spread(1, Widen(c)) != Spread(1, Widen(d))
  {
  }

  lemma SpreadTells2(c: bv8, d: bv8)
    requires c != d
    ensures Spread(2, Widen(c)) != Spread(2, Widen(d))
  {
  }

  lemma SpreadTells3(c: bv8, d: bv8)
    requires c != d
    ensures Spread(3, Widen(c)) != Spread(3, Widen(d))
  {
  }

  /** No statement confuses two characters. */
  lemma SpreadTells(c: bv8, d: bv8)
    requires c != d
    ensures Spread(0, Widen(c)) != Spread(0, Widen(d))
    ensures Spread(1, Widen(c)) != Spread(1, Widen(d))
    ensures Spread(2, Widen(c)) != Spread(2, Widen(d))
    ensures Spread(3, Widen(c)) != Spread(3, Widen(d))
  {
    hide Spread, Widen;
    SpreadTells0(c, d);
    SpreadTells1(c, d);
    SpreadTells2(c, d);
    SpreadTells3(c, d);
  }

  lemma PlusUndone(h: bv64, s: bv64)
    ensures Minus(Plus(h, s), s) == h
  {
    assert Minus(h + s, s) == h;
  }

  lemma PlusTells(h: bv64, s: bv64)
    ensures Minus(Plus(h, s), h) == s
  {
    assert Minus(h + s, h) == s;
  }

  lemma MinusUndone(h: bv64, s: bv64)
    ensures Plus(Minus(h, s), s) == h
  {
    assert Plus(h - s, s) == h;
  }

  lemma MinusTells(h: bv64, s: bv64)
    ensures Minus(h, Minus(h, s)) == s
  {
    assert Minus(h, h - s) == s;
  }

  lemma FlipUndone(h: bv64, s: bv64)
    ensures Flip(Flip(h, s), s) == h
  {
    assert Flip(h ^ s, s) == h;
  }

  lemma FlipTells(h: bv64, s: bv64)
    ensures Flip(Flip(h, s), h) == s
  {
    assert Flip(h ^ s, h) == s;
  }

  /** Every statement can be undone. */
  lemma Undone(h: bv64, s: bv64)
    ensures Minus(Plus(h, s), s) == h && Plus(Minus(h, s), s) == h && Flip(Flip(h, s), s) == h
  {
    hide Plus, Minus, Flip;
    PlusUndone(h, s);
    MinusUndone(h, s);
    FlipUndone(h, s);
  }

  /** What a statement added, subtracted or flipped can be told from the hashes around it. */
  lemma Told(h: bv64, s: bv64)
    ensures Minus(Plus(h, s), h) == s && Minus(h, Minus(h, s)) == s && Flip(Flip(h, s), h) == s
  {
    hide Plus, Minus, Flip;
    PlusTells(h, s);
    MinusTells(h, s);
    FlipTells(h, s);
  }

  /** A statement keeps different hashes different. */
  lemma MixKeepsApart(tag: nat, c: bv64, h: bv64, k: bv64)
    requires tag < 4 && h != k
    ensures Mix(tag, c, h) != Mix(tag, c, k)
  {
    hide Spread, Plus, Minus, Flip;
    Undone(h, Spread(tag, c));
    Undone(k, Spread(tag, c));
  }

  /** A statement tells any two characters apart. */
  lemma MixTells(tag: nat, c: bv8, d: bv8, h: bv64)
    requires tag < 4 && c != d
    ensures Mix(tag, Widen(c), h) != Mix(tag, Widen(d), h)
  {
    hide Spread, Widen, Plus, Minus, Flip;
    SpreadTells(c, d);
    Told(h, Spread(tag, Widen(c)));
    Told(h, Spread(tag, Widen(d)));
  }

  lemma {:induction false} SameRestTells(a: seq<bv8>, b: seq<bv8>, i: nat, h: bv64, k: bv64)
    requires |a| == |b| && i <= |a| && h != k && forall j :: i <= j < |a| ==> a[j] == b[j]
    ensures HashFrom(a, i, h) != HashFrom(b, i, k)
    decreases |a| - i
  {
    hide Mix, Widen;
    if i < |a| {
      var tag := (|a| - i) % 4;
      MixKeepsApart(tag, Widen(a[i]), h, k);
      SameRestTells(a, b, i + 1, Mix(tag, Widen(a[i]), h), Mix(tag, Widen(b[i]), k));
    }
  }

  lemma {:induction false} OneCharacterTellsFrom(a: seq<bv8>, b: seq<bv8>, n: nat, i: nat, h: bv64)
    requires |a| == |b| && i <= n < |a| && a[n] != b[n] && forall j :: 0 <= j < |a| && j != n ==> a[j] == b[j]
    ensures HashFrom(a, i, h) != HashFrom(b, i, h)
    decreases |a| - i
  {
    hide Mix, Widen;
    var tag := (|a| - i) % 4;
    if i == n {
      MixTells(tag, a[i], b[i], h);
      SameRestTells(a, b, i + 1, Mix(tag, Widen(a[i]), h), Mix(tag, Widen(b[i]), h));
    } else {
      OneCharacterTellsFrom(a, b, n, i + 1, Mix(tag, Widen(a[i]), h));
    }
  }

  /** Every character reaches the hash: strings that differ in exactly one hash apart. */
  lemma OneCharacterTells(a: seq<bv8>, b: seq<bv8>, n: nat)
    requires |a| == |b| && n < |a| && a[n] != b[n] && forall j :: 0 <= j < |a| && j != n ==> a[j] == b[j]
    ensures HashFrom(a, 0, 0) != HashFrom(b, 0, 0)
  {
    hide Mix, Widen, HashFrom;
    OneCharacterTellsFrom(a, b, n, 0, 0);
  }

  lemma HelloSteps()
    ensures Mix(1, Widen(0x68), 0) == 0xFFFF_FFFF_FF97_2E60
    ensures Mix(0, Widen(0x65), 0xFFFF_FFFF_FF97_2E60) == 0x60_52F2
    ensures Mix(3, Widen(0x6C), 0x60_52F2) == 0x7B_6FDE
    ensures Mix(2, Widen(0x6C), 0x7B_6FDE) == 0xFFFF_FFFF_FF87_F488
    ensures Mix(1, Widen(0x6F), 0xFFFF_FFFF_FF87_F488) == 0xFFFF_FFFF_FF18_14C9
  {
  }

  /** "hello" */
  lemma HelloHash()
    ensures HashFrom([0x68, 0x65, 0x6C, 0x6C, 0x6F], 0, 0) == 0xFFFF_FFFF_FF18_14C9
  {
    hide Mix, Widen, HashFrom;
    HelloSteps();
    var s: seq<bv8> := [0x68, 0x65, 0x6C, 0x6C, 0x6F];
    HashStep(s, s, 0, 1, 0);
    HashStep(s, s, 1, 0, 0xFFFF_FFFF_FF97_2E60);
    HashStep(s, s, 2, 3, 0x60_52F2);
    HashStep(s, s, 3, 2, 0x7B_6FDE);
    HashStep(s, s, 4, 1, 0xFFFF_FFFF_FF87_F488);
    HashEnd(s, 0xFFFF_FFFF_FF18_14C9);
  }

  lemma HashEnd(s: seq<bv8>, h: bv64)
    ensures HashFrom(s, |s|, h) == h
  {
  }

  lemma ByeSteps()
    ensures Mix(3, Widen(0x62), 0) == 0x18_B782
    ensures Mix(2, Widen(0x79), 0x18_B782) == 0xFFFF_FFFF_FFE4_8476
    ensures Mix(1, Widen(0x65), 0xFFFF_FFFF_FFE4_8476) == 0xFFFF_FFFF_FF7E_B8E1
    ensures Mix(1, Widen(0xE9), 0) == 0x5B
  {
  }

  /** "bye", and the single character 0xE9, which is negative. */
  lemma ByeHash()
    ensures HashFrom([0x62, 0x79, 0x65], 0, 0) == 0xFFFF_FFFF_FF7E_B8E1
    ensures HashFrom([0xE9], 0, 0) == 0x5B
  {
    hide Mix, Widen, HashFrom;
    ByeSteps();
    var s: seq<bv8> := [0x62, 0x79, 0x65];
    HashStep(s, s, 0, 3, 0);
    HashStep(s, s, 1, 2, 0x18_B782);
    HashStep(s, s, 2, 1, 0xFFFF_FFFF_FFE4_8476);
    HashEnd(s, 0xFFFF_FFFF_FF7E_B8E1);
    var t: seq<bv8> := [0xE9];
    HashStep(t, t, 0, 1, 0);
    HashEnd(t, 0x5B);
  }

  /** A string hashes like every string that compares equal to it exactly when it has no NUL before its
      last character. */
  lemma EqualHashesIff(a: seq<bv8>)
    ensures NulFree(a) <==> forall b :: StringEqual(a, b) ==> HashFrom(a, 0, 0) == HashFrom(b, 0, 0)
  {
    hide Mix, Widen, HashFrom;
    if NulFree(a) {
      EqualMeansSameContentsIff(a);
    } else {
      FlippedComparesEqual(a);
      OneCharacterTells(a, LastFlipped(a), |a| - 1);
    }
  }

  /** The shortest such pair: two strings that compare equal and hash differently. */
  lemma EqualStringsMayHashApart() returns (a: seq<bv8>, b: seq<bv8>)
    ensures StringEqual(a, b) && HashFrom(a, 0, 0) != HashFrom(b, 0, 0)
  {
    hide Mix, Widen, HashFrom;
    a, b := [0, 1], [0, 0];
    assert StrcmpEqual(a, b, 0);
    OneCharacterTells(a, b, 1);
  }

  // ---- The two kinds of table ----------------------------------------------------------------

  function HashWord(s: seq<bv8>): Word {
    HashFrom(s, 0, 0) as nat
  }

  /** The bytes of an address as `eq_hash` overlays them. */
  function AddressBytes(a: Word, n: nat): seq<bv8> {
    if n == 0 then [] else [(a % 256) as bv8] + AddressBytes(a / 256, n - 1)
  }

  /** `eq_hash` and `eqp`: the hash of the eight address bytes, comparison by identity. */
  function AddressPolicy(): Policy {
    Policy(true, (k: nat, a: Addr) => HashWord(AddressBytes(a, 8)), (a: nat, b: nat) => a == b)
  }

  /** `string_hash` and `string_equalp`, given the contents of the string objects. */
  function StringPolicy(contents: nat -> seq<bv8>): Policy {
    Policy(false, (k: nat, a: Addr) => HashWord(contents(k)), (a: nat, b: nat) => a == b || StringEqual(contents(a), contents(b)))
  }

  function BytesValue(s: seq<bv8>): nat {
    if s == [] then 0 else s[0] as nat + 256 * BytesValue(s[1..])
  }

  function Radix(n: nat): (r: nat)
    ensures r >= 1
  {
    if n == 0 then 1 else 256 * Radix(n - 1)
  }

  lemma ByteKeeps(d: int)
    requires 0 <= d < 256
    ensures (d as bv8) as int == d
  {
    if d < 16 {
    } else if d < 32 {
    } else if d < 64 {
    } else if d < 128 {
    }
  }

  lemma QuotientFits(a: nat, r: nat)
    requires a < 256 * r
    ensures a / 256 < r && a % 256 + 256 * (a / 256) == a
  {
  }

  /** The bytes stand for the address, lowest first. */
  lemma {:induction false} BytesOfAddress(a: Word, n: nat)
    requires a < Radix(n)
    ensures |AddressBytes(a, n)| == n && BytesValue(AddressBytes(a, n)) == a
    decreases n
  {
    if n > 0 {
      QuotientFits(a, Radix(n - 1));
      BytesOfAddress(a / 256, n - 1);
      BytePrepended(a % 256, AddressBytes(a / 256, n - 1));
    }
  }

  lemma BytePrepended(d: nat, s: seq<bv8>)
    requires d < 256
    ensures BytesValue([d as bv8] + s) == d + 256 * BytesValue(s)
  {
    ByteKeeps(d);
    assert ([d as bv8] + s)[1..] == s;
  }

  lemma EightBytesAreAWord()
    ensures Radix(8) == WORD_LIMIT
  {
    assert Radix(4) == 0x1_0000_0000;
  }

  /** `eq_hash` hashes eight bytes that determine the address. */
  lemma AddressBytesTell(a: Word, b: Word)
    ensures |AddressBytes(a, 8)| == 8
    ensures AddressBytes(a, 8) == AddressBytes(b, 8) <==> a == b
  {
    EightBytesAreAWord();
    BytesOfAddress(a, 8);
    BytesOfAddress(b, 8);
  }

  lemma AddressPolicyIsGood()
    ensures GoodPolicy(AddressPolicy())
  {
  }

  /** Strings without embedded NULs are good keys: equal ones hash alike. */
  lemma StringPolicyIsGood(contents: nat -> seq<bv8>)
    requires forall k :: NulFree(contents(k))
    ensures GoodPolicy(StringPolicy(contents))
  {
    var p := StringPolicy(contents);
    forall a, b ensures p.cmp(a, b) <==> contents(a) == contents(b) {
      assert NulFree(contents(a));
      EqualMeansSameContentsIff(contents(a));
      StringEqualReflexive(contents(a));
    }
    forall a, b, x, y | p.cmp(a, b) ensures p.hash(a, x) == p.hash(b, y) {
    }
  }
}
