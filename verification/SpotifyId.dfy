/** 128-bit ids and their 22-character base-62 text. */
module SpotifyId {
  import opened Bits
  import opened BigEndian

  datatype Option<T> = None | Some(value: T)

  const LENGTH: nat := 22

  const B62: string := "0123456789" + "abcdefghijklm" + "nopqrstuvwxyz" + "ABCDEFGHIJKLM" + "NOPQRSTUVWXYZ"

  /** The value of a character; -1 when it is not in the alphabet. */
  function Digit(c: char): (v: int)
    ensures -1 <= v < 62
  {
    if '0' <= c <= '9' then c as int - '0' as int
    else if 'a' <= c <= 'z' then 10 + c as int - 'a' as int
    else if 'A' <= c <= 'Z' then 36 + c as int - 'A' as int
    else -1
  }

  /** The alphabet lists the characters by value. */
  lemma AlphabetInOrder(v: nat)
    requires v < 62
    ensures |B62| == 62 && Digit(B62[v]) == v
  {
    match v
    case 0 => case 1 => case 2 => case 3 => case 4 => case 5 => case 6 => case 7 => case 8 => case 9 =>
    case 10 => case 11 => case 12 => case 13 => case 14 => case 15 => case 16 => case 17 => case 18 => case 19 =>
    case 20 => case 21 => case 22 => case 23 => case 24 => case 25 => case 26 => case 27 => case 28 => case 29 =>
    case 30 => case 31 => case 32 => case 33 => case 34 => case 35 => case 36 => case 37 => case 38 => case 39 =>
    case 40 => case 41 => case 42 => case 43 => case 44 => case 45 => case 46 => case 47 => case 48 => case 49 =>
    case 50 => case 51 => case 52 => case 53 => case 54 => case 55 => case 56 => case 57 => case 58 => case 59 =>
    case 60 => case 61 =>
  }

  /** The alphabet is the decimal digits and the letters; each of its three ranges counts up by one. */
  lemma DigitOrder(c: char, d: char)
    ensures Digit(c) >= 0 <==> '0' <= c <= '9' || 'a' <= c <= 'z' || 'A' <= c <= 'Z'
    ensures Digit('0') == 0 && Digit('a') == 10 && Digit('A') == 36
    ensures ('0' <= c <= d <= '9' || 'a' <= c <= d <= 'z' || 'A' <= c <= d <= 'Z') ==>
      Digit(d) - Digit(c) == d as int - c as int
  {
  }

  lemma DigitUnique(a: char, b: char)
    requires Digit(a) == Digit(b) >= 0
    ensures a == b
  {
  }

  predicate Alphabetic(s: string) {
    forall i :: 0 <= i < |s| ==> Digit(s[i]) >= 0
  }

  /** A text as a number, most significant character first. */
  function Val(s: string): (v: nat)
    requires Alphabetic(s)
  {
    if s == [] then 0 else Val(s[..|s| - 1]) * 62 + Digit(s[|s| - 1])
  }

  /** The last n base-62 digits of a number. */
  function Text(v: nat, n: nat): (s: string)
    ensures |s| == n
  {
    if n == 0 then [] else Text(v / 62, n - 1) + [Letter(v % 62)]
  }

  function Letter(v: nat): char
    requires v < 62
  {
    AlphabetInOrder(v);
    B62[v]
  }

  function Pow62(n: nat): (p: nat)
    ensures p >= 1
  {
    if n == 0 then 1 else 62 * Pow62(n - 1)
  }

  lemma ValSnoc(s: string, c: char)
    requires Alphabetic(s) && Digit(c) >= 0
    ensures Alphabetic(s + [c]) && Val(s + [c]) == Val(s) * 62 + Digit(c)
  {
  }

  lemma {:induction false} ValOfText(v: nat, n: nat)
    requires v < Pow62(n)
    ensures Alphabetic(Text(v, n)) && Val(Text(v, n)) == v
  {
    if n > 0 {
      hide Digit, Alphabetic, Val;
      ValOfText(v / 62, n - 1);
      AlphabetInOrder(v % 62);
      ValSnoc(Text(v / 62, n - 1), Letter(v % 62));
    }
  }

  lemma TextSnoc(v: nat, c: char, n: nat)
    requires Digit(c) >= 0
    ensures Text(62 * v + Digit(c), n + 1) == Text(v, n) + [c]
  {
    hide Digit;
    AlphabetInOrder(Digit(c));
    DigitUnique(Letter(Digit(c)), c);
    DivModUnique(62 * v + Digit(c), 62, v, Digit(c));
  }

  lemma {:induction false} TextOfVal(s: string)
    requires Alphabetic(s)
    ensures Text(Val(s), |s|) == s
  {
    hide Digit, Text;
    if s == [] {
      TextNone(Val(s));
    } else {
      var k := |s| - 1;
      assert s == s[..k] + [s[k]];
      TextOfVal(s[..k]);
      TextSnoc(Val(s[..k]), s[k], k);
    }
  }

  /** Character i of a text is its base-62 digit, the last character the lowest. */
  lemma {:induction false} ValDigit(s: string, i: nat)
    requires Alphabetic(s) && i < |s|
    ensures Val(s) / Pow62(|s| - 1 - i) % 62 == Digit(s[i])
  {
    hide Digit;
    var k := |s| - 1;
    var last, rest := Digit(s[k]), Val(s[..k]);
    assert 0 <= last < 62 && Val(s) == rest * 62 + last;
    if i == k {
      assert Pow62(0) == 1;
    } else {
      ValDigit(s[..k], i);
      hide Pow62, Val;
      assert Val(s) / 62 == rest;
      DivDiv(Val(s), 62, Pow62(k - 1 - i));
      Pow62Add(1, k - 1 - i);
      assert Pow62(1) == 62 by {
        Pow62One();
      }
    }
  }

  lemma Pow62One()
    ensures Pow62(1) == 62
  {
    assert Pow62(0) == 1;
  }

  /** 22 digits are enough for 128 bits. */
  lemma TextHolds()
    ensures Pow2(128) <= Pow62(LENGTH)
  {
    assert Pow62(6) == 56800235584;
    assert Pow62(11) == 52036560683837093888;
    Pow2Values();
    Pow2Add(32, 32);
    Pow2Add(64, 64);
    Pow62Add(11, 11);
    MulMono(Pow2(64), Pow62(11), Pow2(64));
    MulMono(Pow2(64), Pow62(11), Pow62(11));
  }

  lemma {:induction false} Pow62Add(a: nat, b: nat)
    ensures Pow62(a + b) == Pow62(a) * Pow62(b)
  {
    if a > 0 {
      Pow62Add(a - 1, b);
      MulAssoc(62, Pow62(a - 1), Pow62(b));
    }
  }

  // ---------------------------------------------------------------- ids and texts

  function Encode(id: seq<u8>): (s: string)
    requires |id| == 16
  {
    Text(BeVal(id), LENGTH)
  }

  /** A text is an id when it has 22 characters of the alphabet and its value fits 128 bits. */
  predicate IsId(s: string) {
    |s| == LENGTH && Alphabetic(s) && Val(s) < Pow2(128)
  }

  function Decode(s: string): (id: Option<seq<u8>>) {
    if IsId(s) then Some(BeBytes(Val(s), 16)) else None
  }

  lemma DecodeOfEncode(id: seq<u8>)
    requires |id| == 16
    ensures Decode(Encode(id)) == Some(id)
  {
    hide BeVal, BeBytes, Pow2, Pow62, Val, Text, Alphabetic;
    BeBound(id);
    TextHolds();
    ValOfText(BeVal(id), LENGTH);
    BeBytesOfVal(id);
  }

  lemma EncodeOfDecode(s: string)
    requires Decode(s).Some?
    ensures Encode(Decode(s).value) == s
  {
    hide BeVal, BeBytes, Pow2, Val, Text, Alphabetic;
    BeBytesVal(Val(s), 16);
    TextOfVal(s);
  }

  // ---------------------------------------------------------------- limb arithmetic in place

  /** r := r * 62 + v, byte by byte from the last; what does not fit is the carry. */
  method MulAdd(r: array<u8>, v: nat) returns (carry: nat)
    requires r.Length == 16 && v < 62
    modifies r
    ensures BeVal(r[..]) + carry * Pow2(128) == 62 * BeVal(old(r[..])) + v
  {
    hide BeVal, Pow2;
    ghost var start := r[..];
    carry := v;
    var i := 15;
    SuffixEmpty(start);
    while i >= 0
      invariant -1 <= i <= 15 && carry < 62
      invariant r[..i + 1] == start[..i + 1]
      invariant BeVal(r[i + 1..]) + carry * Pow2(8 * (15 - i)) == 62 * BeVal(start[i + 1..]) + v
    {
      assert r[i] == start[i] by {
        assert r[..i + 1][i] == start[..i + 1][i];
      }
      ghost var tail, c := r[i + 1..], carry;
      var cur := (r[i] as int) * 62 + carry;
      r[i] := cur % 256;
      carry := cur / 256;
      assert r[i..] == [r[i]] + tail;
      assert start[i..] == [start[i]] + start[i + 1..];
      assert r[..i] == start[..i] by {
        assert start[..i + 1][..i] == start[..i];
      }
      MulAddStep(start[i], c, r[i], carry, tail, start[i + 1..], v);
      i := i - 1;
    }
    assert r[0..] == r[..] && start[0..] == start;
  }

  lemma SuffixEmpty(b: seq<u8>)
    requires |b| == 16
    ensures BeVal(b[16..]) == 0 && Pow2(0) == 1 && b[..16] == b
  {
  }

  lemma MulAddStep(x: u8, c: nat, y: u8, carry: nat, tail: seq<u8>, rest: seq<u8>, v: nat)
    requires |tail| == |rest| && x * 62 + c == y + 256 * carry
    requires BeVal(tail) + c * Pow2(8 * |tail|) == 62 * BeVal(rest) + v
    ensures BeVal([y] + tail) + carry * Pow2(8 * (|tail| + 1)) == 62 * BeVal([x] + rest) + v
  {
    hide BeVal, Pow2;
    var n := |tail|;
    BePrepend(y, tail);
    BePrepend(x, rest);
    NextWeight(n);
    Weigh(x, c, y, carry, Pow2(8 * n));
  }

  lemma NextWeight(n: nat)
    ensures Pow2(8 * (n + 1)) == 256 * Pow2(8 * n)
  {
    Pow2Add(8, 8 * n);
    Pow2Values();
  }

  lemma Weigh(x: int, c: int, y: int, carry: int, w: nat)
    requires x * 62 + c == y + 256 * carry
    ensures y * w + carry * (256 * w) == 62 * (x * w) + c * w
  {
  }

  lemma BePrepend(x: u8, b: seq<u8>)
    ensures BeVal([x] + b) == x * Pow2(8 * |b|) + BeVal(b)
  {
    BeAppend([x], b);
    assert BeVal([x]) == x;
  }

  /** tmp := tmp / 62, byte by byte from the first; what is left over is the digit. */
  method DivMod62(tmp: array<u8>) returns (carry: nat)
    requires tmp.Length == 16
    modifies tmp
    ensures carry < 62 && BeVal(tmp[..]) == BeVal(old(tmp[..])) / 62 && carry == BeVal(old(tmp[..])) % 62
  {
    hide BeVal, Pow2;
    ghost var start := tmp[..];
    carry := 0;
    assert tmp[..0] == start[..0];
    BeEmpty(start);
    for j := 0 to 16
      invariant carry < 62
      invariant tmp[j..] == start[j..]
      invariant BeVal(tmp[..j]) * 62 + carry == BeVal(start[..j])
    {
      assert tmp[j] == start[j] by {
        assert tmp[j..][0] == start[j..][0];
      }
      var cur := carry * 256 + tmp[j];
      ghost var before := tmp[..j];
      tmp[j] := cur / 62;
      carry := cur % 62;
      BeTake(start, j);
      assert tmp[..j + 1] == before + [tmp[j]];
      BeSnoc(before, tmp[j]);
      assert tmp[j + 1..] == start[j + 1..] by {
        assert start[j..][1..] == start[j + 1..];
      }
    }
    assert tmp[..16] == tmp[..] && start[..16] == start;
  }

  lemma BeEmpty(b: seq<u8>)
    ensures BeVal(b[..0]) == 0
  {
  }

  method FromBase62(s: string) returns (id: Option<seq<u8>>)
    ensures id == Decode(s)
  {
    hide BeVal, BeBytes, Pow2, Val, Alphabetic;
    if |s| != LENGTH {
      return None;
    }
    var r := new u8[16](_ => 0);
    assert r[..] == seq(16, _ => 0);
    BeZeros(16);
    NothingRead(s);
    for k := 0 to |s|
      invariant Alphabetic(s[..k]) && BeVal(r[..]) == Val(s[..k])
    {
      var v := Digit(s[k]);
      if v < 0 {
        NotAlphabetic(s, k);
        return None;
      }
      PrefixStep(s, k);
      var carry := MulAdd(r, v);
      if carry != 0 {
        MulMono(1, carry, Pow2(128));
        PrefixTooBig(s, k + 1);
        return None;
      }
    }
    assert s[..|s|] == s;
    BeBound(r[..]);
    BeBytesOfVal(r[..]);
    return Some(r[..]);
  }

  lemma NothingRead(s: string)
    ensures Alphabetic(s[..0]) && Val(s[..0]) == 0
  {
  }

  lemma NotAlphabetic(s: string, k: nat)
    requires k < |s| && Digit(s[k]) < 0
    ensures !Alphabetic(s)
  {
  }

  lemma PrefixStep(s: string, k: nat)
    requires k < |s| && Alphabetic(s[..k]) && Digit(s[k]) >= 0
    ensures Alphabetic(s[..k + 1]) && Val(s[..k + 1]) == 62 * Val(s[..k]) + Digit(s[k])
  {
    ValSnoc(s[..k], s[k]);
    assert s[..k] + [s[k]] == s[..k + 1];
  }

  /** A number only grows with more digits. */
  lemma {:induction false} PrefixTooBig(s: string, k: nat)
    requires k <= |s| && Alphabetic(s[..k]) && Val(s[..k]) >= Pow2(128)
    ensures !IsId(s)
    decreases |s| - k
  {
    if k == |s| {
      assert s[..k] == s;
    } else if Digit(s[k]) < 0 {
      NotAlphabetic(s, k);
    } else {
      PrefixStep(s, k);
      PrefixTooBig(s, k + 1);
    }
  }

  method ToBase62(id: seq<u8>) returns (s: string)
    requires |id| == 16
    ensures s == Encode(id)
  {
    hide BeVal, BeBytes, Pow2, Text;
    var tmp := new u8[16](i requires 0 <= i < 16 => id[i]);
    assert tmp[..] == id;
    s := seq(LENGTH, _ => '0');
    var i := LENGTH - 1;
    assert Text(BeVal(tmp[..]), LENGTH) + s[LENGTH..] == Encode(id);
    while i >= 0
      invariant -1 <= i < LENGTH && |s| == LENGTH
      invariant Text(BeVal(tmp[..]), i + 1) + s[i + 1..] == Encode(id)
    {
      ghost var v, tail := BeVal(tmp[..]), s[i + 1..];
      var carry := DivMod62(tmp);
      s := s[i := Letter(carry)];
      TextUnfold(v, i + 1, tail);
      assert s[i..] == [Letter(carry)] + tail;
      i := i - 1;
    }
    TextNone(BeVal(tmp[..]));
    assert s[0..] == s;
  }

  lemma TextUnfold(v: nat, n: nat, tail: string)
    requires n > 0
    ensures Text(v, n) + tail == Text(v / 62, n - 1) + ([Letter(v % 62)] + tail)
  {
  }

  lemma TextNone(v: nat)
    ensures Text(v, 0) == []
  {
  }
}
