/**
 * The main window's known-plaintext search: take the known plaintext of the
 * plaintext table, the ciphertext block before it in the ciphertext table,
 * and XOR the two as integers read in the machine's byte order.
 */
module Gadget {
  import opened Wrappers
  import opened Codec
  import opened Grid
  import opened Table

  /** sys.byteorder: 'little' or 'big'. */
  datatype ByteOrder = Little | Big

  function Pow2(k: nat): (p: nat)
    ensures p > 0
  {
    if k == 0 then 1 else 2 * Pow2(k - 1)
  }

  function Pow256(n: nat): (p: nat)
    ensures p > 0
  {
    if n == 0 then 1 else 256 * Pow256(n - 1)
  }

  // ---------------------------------------------------------------------------
  // Bitwise exclusive or on non-negative integers, Python's `^`

  function Xor(a: nat, b: nat): (r: nat)
    ensures r <= a + b
    decreases a + b
  {
    if a == 0 then b
    else if b == 0 then a
    else 2 * Xor(a / 2, b / 2) + (if a % 2 == b % 2 then 0 else 1)
  }

  /** The lowest bit of a ^ b is the exclusive or of the lowest bits; the rest is the ^ of the rest. */
  lemma XorUnfold(a: nat, b: nat)
    ensures Xor(a, b) == 2 * Xor(a / 2, b / 2) + (if a % 2 == b % 2 then 0 else 1)
  {
    if a == 0 {
      assert Xor(a / 2, b / 2) == b / 2;
    } else if b == 0 {
      assert Xor(a / 2, b / 2) == a / 2 by {
        if a / 2 != 0 {
          assert b / 2 == 0;
        }
      }
    }
  }

  /** On single bits, ^ is 1 exactly when the bits differ. */
  lemma XorBits(l1: nat, l2: nat)
    requires l1 < 2 && l2 < 2
    ensures Xor(l1, l2) == if l1 == l2 then 0 else 1
  {
    if l1 == 1 && l2 == 1 {
      assert Xor(0, 0) == 0;
    }
  }

  /** Splitting off one bit: (l1 + 2*h1) ^ (l2 + 2*h2) == (l1 ^ l2) + 2*(h1 ^ h2) for bits l1, l2. */
  lemma XorShift1(a1: nat, a2: nat, l1: nat, h1: nat, l2: nat, h2: nat)
    requires l1 < 2 && l2 < 2
    requires a1 == l1 + 2 * h1 && a2 == l2 + 2 * h2
    ensures Xor(a1, a2) == Xor(l1, l2) + 2 * Xor(h1, h2)
  {
    XorUnfold(a1, a2);
    XorBits(l1, l2);
    assert a1 / 2 == h1 && a1 % 2 == l1;
    assert a2 / 2 == h2 && a2 % 2 == l2;
  }

  /** h shifted left by k bits, h * 2^k, written as k doublings. */
  function Shl(h: nat, k: nat): nat {
    if k == 0 then h else 2 * Shl(h, k - 1)
  }

  /** Shifting left by eight bits multiplies by 256. */
  lemma ShlByte(h: nat)
    ensures Shl(h, 8) == 256 * h
  {
    assert Shl(h, 1) == 2 * h;
    assert Shl(h, 2) == 4 * h;
    assert Shl(h, 3) == 8 * h;
    assert Shl(h, 4) == 16 * h;
    assert Shl(h, 5) == 32 * h;
    assert Shl(h, 6) == 64 * h;
    assert Shl(h, 7) == 128 * h;
  }

  /** Exclusive or works digit by digit in base 2^k for these operands. */
  predicate ShiftHolds(k: nat, lo1: nat, hi1: nat, lo2: nat, hi2: nat) {
    Xor(lo1 + Shl(hi1, k), lo2 + Shl(hi2, k)) == Xor(lo1, lo2) + Shl(Xor(hi1, hi2), k)
  }

  /** Exclusive or works digit by digit in base 2^k. */
  lemma {:induction false} XorShift(k: nat, lo1: nat, hi1: nat, lo2: nat, hi2: nat)
    requires lo1 < Pow2(k) && lo2 < Pow2(k)
    ensures ShiftHolds(k, lo1, hi1, lo2, hi2)
  {
    if k == 0 {
      assert lo1 == 0 && lo2 == 0 && Xor(lo1, lo2) == 0;
    } else {
      ShiftSplit(k, lo1, hi1);
      XorShift(k - 1, lo1 / 2, hi1, lo2 / 2, hi2);
      XorShiftUp(k, lo1, hi1, lo2, hi2);
    }
  }

  /** The induction step of XorShift: from base 2^(k-1) to base 2^k. */
  lemma XorShiftUp(k: nat, lo1: nat, hi1: nat, lo2: nat, hi2: nat)
    requires k > 0
    requires ShiftHolds(k - 1, lo1 / 2, hi1, lo2 / 2, hi2)
    ensures ShiftHolds(k, lo1, hi1, lo2, hi2)
  {
    ShiftSplit(k, lo1, hi1);
    ShiftSplit(k, lo2, hi2);
    XorShiftStep(lo1 + Shl(hi1, k), lo2 + Shl(hi2, k), lo1, lo2, lo1 % 2, lo1 / 2, lo2 % 2, lo2 / 2,
                 Shl(hi1, k - 1), Shl(hi2, k - 1), Shl(Xor(hi1, hi2), k - 1), Shl(Xor(hi1, hi2), k));
  }

  /** Splitting the lowest bit off lo + h * 2^k. */
  lemma ShiftSplit(k: nat, lo: nat, h: nat)
    requires k > 0
    ensures lo + Shl(h, k) == lo % 2 + 2 * (lo / 2 + Shl(h, k - 1))
    ensures lo == lo % 2 + 2 * (lo / 2) && lo % 2 < 2
    ensures lo < Pow2(k) ==> lo / 2 < Pow2(k - 1)
  {
  }

  /** One bit of the digit-by-digit step, with the high parts already combined. */
  lemma XorShiftStep(a1: nat, a2: nat, b1: nat, b2: nat,
                     l1: nat, m1: nat, l2: nat, m2: nat, q1: nat, q2: nat, qx: nat, px: nat)
    requires l1 < 2 && l2 < 2
    requires a1 == l1 + 2 * (m1 + q1) && a2 == l2 + 2 * (m2 + q2)
    requires b1 == l1 + 2 * m1 && b2 == l2 + 2 * m2 && px == 2 * qx
    requires Xor(m1 + q1, m2 + q2) == Xor(m1, m2) + qx
    ensures Xor(a1, a2) == Xor(b1, b2) + px
  {
    XorShift1(a1, a2, l1, m1 + q1, l2, m2 + q2);
    XorShift1(b1, b2, l1, m1, l2, m2);
    StepSum(Xor(a1, a2), Xor(b1, b2), Xor(l1, l2), Xor(m1 + q1, m2 + q2), Xor(m1, m2), qx, px);
  }

  /** The arithmetic that closes XorShiftStep, with the ^ values as plain numbers. */
  lemma StepSum(xa: nat, xb: nat, xl: nat, xmq: nat, xm: nat, qx: nat, px: nat)
    requires xa == xl + 2 * xmq && xb == xl + 2 * xm && xmq == xm + qx && px == 2 * qx
    ensures xa == xb + px
  {
  }

  /** The exclusive or of two k-bit numbers has k bits. */
  lemma {:induction false} XorBelow(k: nat, a: nat, b: nat)
    requires a < Pow2(k) && b < Pow2(k)
    ensures Xor(a, b) < Pow2(k)
  {
    if k > 0 {
      XorBelow(k - 1, a / 2, b / 2);
      XorUnfold(a, b);
    }
  }

  lemma XorSelf(a: nat)
    ensures Xor(a, a) == 0
    decreases a
  {
    if a > 0 {
      XorSelf(a / 2);
    }
  }

  lemma XorComm(a: nat, b: nat)
    ensures Xor(a, b) == Xor(b, a)
    decreases a + b
  {
    if a != 0 && b != 0 {
      XorComm(a / 2, b / 2);
    }
  }

  /** Applying the same key twice gives the value back. */
  lemma {:induction false} XorCancel(a: nat, b: nat)
    ensures Xor(Xor(a, b), b) == a
    decreases a + b
  {
    if a != 0 || b != 0 {
      var x := Xor(a, b);
      XorUnfold(a, b);
      XorUnfold(x, b);
      assert x / 2 == Xor(a / 2, b / 2) && x % 2 == (if a % 2 == b % 2 then 0 else 1);
      if a / 2 + b / 2 < a + b {
        XorCancel(a / 2, b / 2);
      }
      XorUnfold(a, 0);
    }
  }

  // ---------------------------------------------------------------------------
  // int.from_bytes and int.to_bytes

  function Reverse(b: seq<byte>): (r: seq<byte>)
    ensures |r| == |b| && forall i :: 0 <= i < |b| ==> r[i] == b[|b| - 1 - i]
  {
    seq(|b|, i requires 0 <= i < |b| => b[|b| - 1 - i])
  }

  /** The value of little-endian bytes. */
  function FromLittle(b: seq<byte>): nat {
    if b == [] then 0 else b[0] + 256 * FromLittle(b[1..])
  }

  /** int.from_bytes(b, order): n bytes hold a number below 256^n. */
  function FromBytes(b: seq<byte>, order: ByteOrder): (v: nat)
    ensures v < Pow256(|b|)
  {
    FromLittleBound(b);
    FromLittleBound(Reverse(b));
    match order
    case Little => FromLittle(b)
    case Big => FromLittle(Reverse(b))
  }

  /** The lowest len bytes of x, least significant first. */
  function ToLittle(x: nat, len: nat): (b: seq<byte>)
    ensures |b| == len
  {
    if len == 0 then [] else [x % 256] + ToLittle(x / 256, len - 1)
  }

  /** x.to_bytes(len, order): OverflowError when x does not fit in len bytes. */
  function ToBytes(x: nat, len: nat, order: ByteOrder): (r: Result<seq<byte>, Error>)
    ensures r.Success? <==> x < Pow256(len)
    ensures r.Failure? ==> r.error == Overflow
    ensures r.Success? ==> |r.value| == len && FromBytes(r.value, order) == x
  {
    if x >= Pow256(len) then Failure(Overflow)
    else
      ToLittleRoundTrip(x, len);
      match order
      case Little => Success(ToLittle(x, len))
      case Big =>
        ReverseReverse(ToLittle(x, len));
        Success(Reverse(ToLittle(x, len)))
  }

  lemma ReverseReverse(b: seq<byte>)
    ensures Reverse(Reverse(b)) == b
  {
  }

  /** n bytes hold a number below 256^n. */
  lemma {:induction false} FromLittleBound(b: seq<byte>)
    ensures FromLittle(b) < Pow256(|b|)
  {
    if b != [] {
      FromLittleBound(b[1..]);
    }
  }

  /** Writing a number that fits and reading it back gives the number. */
  lemma {:induction false} ToLittleRoundTrip(x: nat, len: nat)
    requires x < Pow256(len)
    ensures FromLittle(ToLittle(x, len)) == x
  {
    if len > 0 {
      ToLittleRoundTrip(x / 256, len - 1);
      var b := ToLittle(x, len);
      assert b[1..] == ToLittle(x / 256, len - 1);
    }
  }

  /** Reading bytes and writing the number back in as many bytes gives the bytes. */
  lemma {:induction false} FromLittleRoundTrip(b: seq<byte>)
    ensures ToLittle(FromLittle(b), |b|) == b
  {
    if b != [] {
      FromLittleRoundTrip(b[1..]);
      var x := FromLittle(b);
      assert x % 256 == b[0] && x / 256 == FromLittle(b[1..]);
      assert [b[0]] + b[1..] == b;
    }
  }

  /** Zero bytes at the most significant end do not change the value. */
  lemma {:induction false} FromLittleZeros(b: seq<byte>, n: nat)
    ensures FromLittle(b + seq(n, _ => 0)) == FromLittle(b)
  {
    if b == [] {
      ZerosValue(n);
      assert b + seq(n, _ => 0) == seq(n, _ => 0);
    } else {
      assert (b + seq(n, _ => 0))[1..] == b[1..] + seq(n, _ => 0);
      FromLittleZeros(b[1..], n);
    }
  }

  lemma {:induction false} ZerosValue(n: nat)
    ensures FromLittle(seq(n, _ => 0)) == 0
  {
    if n > 0 {
      assert seq(n, _ => 0)[1..] == seq(n - 1, _ => 0);
      ZerosValue(n - 1);
    }
  }

  // ---------------------------------------------------------------------------
  // The gadget

  function ByteXor(x: byte, y: byte): (z: byte)
  {
    assert Pow2(8) == 256;
    XorBelow(8, x, y);
    Xor(x, y)
  }

  /** The bytewise exclusive or of two byte strings of one length. */
  function BytesXor(a: seq<byte>, b: seq<byte>): (c: seq<byte>)
    requires |a| == |b|
    ensures |c| == |a|
  {
    seq(|a|, i requires 0 <= i < |a| => ByteXor(a[i], b[i]))
  }

  /** App.encrypt: both byte strings read as integers in the machine's order, XORed, written back in len(plain) bytes. */
  function Encrypt(plain: seq<byte>, cipher: seq<byte>, order: ByteOrder): (r: Result<seq<byte>, Error>)
    ensures r.Success? ==> |r.value| == |plain|
    ensures r.Failure? ==> r.error == Overflow
  {
    ToBytes(Xor(FromBytes(plain, order), FromBytes(cipher, order)), |plain|, order)
  }

  /** XOR of the little-endian values is the value of the bytewise XOR. */
  lemma {:induction false} FromLittleXor(a: seq<byte>, b: seq<byte>)
    requires |a| == |b|
    ensures FromLittle(BytesXor(a, b)) == Xor(FromLittle(a), FromLittle(b))
  {
    if a != [] {
      FromLittleXor(a[1..], b[1..]);
      assert BytesXor(a, b)[1..] == BytesXor(a[1..], b[1..]);
      assert Pow2(8) == 256;
      XorShift(8, a[0], FromLittle(a[1..]), b[0], FromLittle(b[1..]));
      ShlByte(FromLittle(a[1..]));
      ShlByte(FromLittle(b[1..]));
      ShlByte(Xor(FromLittle(a[1..]), FromLittle(b[1..])));
    }
  }

  lemma ReverseBytesXor(a: seq<byte>, b: seq<byte>)
    requires |a| == |b|
    ensures Reverse(BytesXor(a, b)) == BytesXor(Reverse(a), Reverse(b))
  {
  }

  /**
   * For a plaintext and a ciphertext of one length, encrypt is the bytewise
   * exclusive or, whichever the byte order, and never overflows.
   */
  lemma EncryptBytewise(plain: seq<byte>, cipher: seq<byte>, order: ByteOrder)
    requires |plain| == |cipher|
    ensures Encrypt(plain, cipher, order) == Success(BytesXor(plain, cipher))
  {
    var c := BytesXor(plain, cipher);
    match order
    case Little =>
      FromLittleXor(plain, cipher);
      FromLittleBound(c);
      FromLittleRoundTrip(c);
    case Big =>
      var rc := BytesXor(Reverse(plain), Reverse(cipher));
      FromLittleXor(Reverse(plain), Reverse(cipher));
      FromLittleBound(rc);
      FromLittleRoundTrip(rc);
      ReverseBytesXor(plain, cipher);
      ReverseReverse(c);
  }

  /**
   * A key shorter than the plaintext counts as zero-padded at its most
   * significant end: after the plaintext on the little-endian side, before
   * it on the big-endian side.
   */
  lemma EncryptShortKey(plain: seq<byte>, cipher: seq<byte>, order: ByteOrder)
    requires |cipher| <= |plain|
    ensures var zeros := seq(|plain| - |cipher|, _ => 0);
            Encrypt(plain, cipher, order) ==
            Success(BytesXor(plain, if order == Little then cipher + zeros else zeros + cipher))
  {
    var zeros: seq<byte> := seq(|plain| - |cipher|, _ => 0);
    var padded := if order == Little then cipher + zeros else zeros + cipher;
    if order == Little {
      FromLittleZeros(cipher, |zeros|);
    } else {
      assert Reverse(padded) == Reverse(cipher) + zeros;
      FromLittleZeros(Reverse(cipher), |zeros|);
    }
    assert FromBytes(padded, order) == FromBytes(cipher, order);
    EncryptBytewise(plain, padded, order);
  }

  /** A non-zero byte anywhere makes the little-endian value non-zero. */
  lemma {:induction false} NonzeroValue(b: seq<byte>, i: nat)
    requires i < |b| && b[i] != 0
    ensures FromLittle(b) > 0
  {
    if i > 0 {
      NonzeroValue(b[1..], i - 1);
    }
  }

  /** A key with a non-zero byte at or past position |p| gives p ^ key of at least 256^|p|. */
  lemma {:induction false} XorLongKey(p: seq<byte>, c: seq<byte>, i: nat)
    requires |p| <= i < |c| && c[i] != 0
    ensures Xor(FromLittle(p), FromLittle(c)) >= Pow256(|p|)
  {
    if p == [] {
      NonzeroValue(c, i);
    } else {
      var lo, hi := FromLittle(p[1..]), FromLittle(c[1..]);
      XorLongKey(p[1..], c[1..], i - 1);
      assert Pow2(8) == 256;
      XorShift(8, p[0], lo, c[0], hi);
      ShlByte(lo);
      ShlByte(hi);
      ShlByte(Xor(lo, hi));
    }
  }

  /** The bytes that are not all zero hold a non-zero byte. */
  lemma NonzeroWitness(b: seq<byte>) returns (k: nat)
    requires b != seq(|b|, _ => 0)
    ensures k < |b| && b[k] != 0
  {
    k :| 0 <= k < |b| && b[k] != 0;
  }

  /**
   * A key longer than the plaintext: when its extra bytes, at the most
   * significant end for the byte order, are all zero, encrypt is the
   * bytewise exclusive or with the rest of the key; otherwise to_bytes
   * raises OverflowError.
   */
  lemma EncryptLongKey(plain: seq<byte>, cipher: seq<byte>, order: ByteOrder)
    requires |cipher| > |plain|
    ensures var extra := |cipher| - |plain|;
            var high := if order == Little then cipher[|plain|..] else cipher[..extra];
            var low := if order == Little then cipher[..|plain|] else cipher[extra..];
            Encrypt(plain, cipher, order) ==
              if high == seq(extra, _ => 0) then Success(BytesXor(plain, low)) else Failure(Overflow)
  {
    var n, extra := |plain|, |cipher| - |plain|;
    var zeros: seq<byte> := seq(extra, _ => 0);
    if order == Little {
      var high, low := cipher[n..], cipher[..n];
      if high == zeros {
        assert cipher == low + zeros;
        FromLittleZeros(low, extra);
        EncryptBytewise(plain, low, Little);
      } else {
        var k := NonzeroWitness(high);
        XorLongKey(plain, cipher, n + k);
      }
    } else {
      var high, low := cipher[..extra], cipher[extra..];
      if high == zeros {
        assert Reverse(cipher) == Reverse(low) + zeros;
        FromLittleZeros(Reverse(low), extra);
        EncryptBytewise(plain, low, Big);
      } else {
        var k := NonzeroWitness(high);
        assert Reverse(cipher)[|cipher| - 1 - k] == high[k];
        XorLongKey(Reverse(plain), Reverse(cipher), |cipher| - 1 - k);
      }
    }
  }

  /** Encrypting the result again with the same key of the same length gives the plaintext back. */
  lemma EncryptInvolution(plain: seq<byte>, cipher: seq<byte>, order: ByteOrder)
    requires |plain| == |cipher|
    ensures Encrypt(plain, cipher, order).Success?
    ensures Encrypt(Encrypt(plain, cipher, order).value, cipher, order) == Success(plain)
  {
    EncryptBytewise(plain, cipher, order);
    var c := BytesXor(plain, cipher);
    EncryptBytewise(c, cipher, order);
    forall i | 0 <= i < |plain| ensures BytesXor(c, cipher)[i] == plain[i] {
      XorCancel(plain[i], cipher[i]);
    }
    assert BytesXor(c, cipher) == plain;
  }

  /** Encrypting the plaintext with the result gives the key back. */
  lemma EncryptRecoversKey(plain: seq<byte>, cipher: seq<byte>, order: ByteOrder)
    requires |plain| == |cipher|
    ensures Encrypt(plain, cipher, order).Success?
    ensures Encrypt(plain, Encrypt(plain, cipher, order).value, order) == Success(cipher)
  {
    EncryptBytewise(plain, cipher, order);
    var c := BytesXor(plain, cipher);
    EncryptBytewise(plain, c, order);
    forall i | 0 <= i < |plain| ensures BytesXor(plain, c)[i] == cipher[i] {
      XorComm(plain[i], Xor(plain[i], cipher[i]));
      XorComm(plain[i], cipher[i]);
      XorCancel(cipher[i], plain[i]);
    }
    assert BytesXor(plain, c) == cipher;
  }

  /** Encrypting a block with itself gives zero bytes. */
  lemma EncryptSelf(plain: seq<byte>, order: ByteOrder)
    ensures Encrypt(plain, plain, order) == Success(seq(|plain|, _ => 0))
  {
    EncryptBytewise(plain, plain, order);
    forall i | 0 <= i < |plain| ensures BytesXor(plain, plain)[i] == 0 {
      XorSelf(plain[i]);
    }
    assert BytesXor(plain, plain) == seq(|plain|, _ => 0);
  }

  /** The known-plaintext search as a value: known plaintext, then the ciphertext before it, then encrypt. */
  function Gadget(known: Result<KnownPlain, Error>, cipherTable: CellTable, lib: Library, order: ByteOrder): (r: Result<seq<byte>, Error>)
    reads cipherTable
    ensures r.Success? ==> known.Success? && |r.value| == |known.value.plain|
  {
    match known
    case Failure(e) => Failure(e)
    case Success(k) =>
      match cipherTable.GetCipher(k.row, k.column, lib)
      case Failure(e) => Failure(e)
      case Success(c) => Encrypt(k.plain, c, order)
  }

  /**
   * When the known plaintext and the ciphertext block before it have one
   * length, the search's result is their bytewise exclusive or, in either
   * byte order.
   */
  lemma GadgetBytewise(known: Result<KnownPlain, Error>, cipherTable: CellTable, lib: Library, order: ByteOrder)
    requires known.Success?
    requires cipherTable.GetCipher(known.value.row, known.value.column, lib).Success?
    requires |cipherTable.GetCipher(known.value.row, known.value.column, lib).value| == |known.value.plain|
    ensures Gadget(known, cipherTable, lib, order) ==
            Success(BytesXor(known.value.plain, cipherTable.GetCipher(known.value.row, known.value.column, lib).value))
  {
    EncryptBytewise(known.value.plain, cipherTable.GetCipher(known.value.row, known.value.column, lib).value, order);
  }

  /** The part of the main window the search uses: the two tables, the byte order and the stored result. */
  class App {
    var tablePlain: CellTable
    var tableCipher: CellTable
    var order: ByteOrder
    var x: seq<byte>

    /** Both tables start four columns wide and five rows high; x starts empty. */
    constructor (order: ByteOrder)
      ensures fresh(tablePlain) && fresh(tableCipher) && tablePlain != tableCipher
      ensures tablePlain.Valid() && tablePlain.cells == Resized([], 5, 4) && tablePlain.encoding == Utf8
      ensures tableCipher.Valid() && tableCipher.cells == Resized([], 5, 4) && tableCipher.encoding == Utf8
      ensures this.order == order && x == []
    {
      var cipher := new CellTable();
      cipher.Resize(5, 4);
      var plain := new CellTable();
      plain.Resize(5, 4);
      tableCipher := cipher;
      tablePlain := plain;
      this.order := order;
      x := [];
    }

    /**
     * searchGadget: the known plaintext, the ciphertext at the cell before
     * its coordinates, and their exclusive or, which is kept in x.  Any
     * exception leaves x as it was.
     */
    method SearchGadget(lib: Library) returns (r: Result<seq<byte>, Error>)
      requires tablePlain.Valid()
      modifies this
      ensures tablePlain == old(tablePlain) && tableCipher == old(tableCipher) && order == old(order)
      ensures r == Gadget(KnownPlainOf(tablePlain.cells, tablePlain.columnCount, tablePlain.encoding, lib), tableCipher, lib, order)
      ensures x == if r.Success? then r.value else old(x)
    {
      var known := tablePlain.GetKnownPlain(lib);
      if known.Failure? {
        return Failure(known.error);
      }
      var cipher := tableCipher.GetCipher(known.value.row, known.value.column, lib);
      if cipher.Failure? {
        return Failure(cipher.error);
      }
      r := Encrypt(known.value.plain, cipher.value, order);
      if r.Success? {
        x := r.value;
      }
    }
  }
}
