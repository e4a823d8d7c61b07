/**
 Variable-length integers: `WriteVarInt` and `ReadVarInt` (src/serialize.h).  Digits of seven bits, most
 significant first, with one subtracted from all but the last.
 */
module VarInt {
  import opened NatMath

  type Byte = x: nat | x < 256

  /** The bytes of a number of which more digits follow: each has its high bit set. */
  function Continued(n: nat): (r: seq<Byte>)
    ensures r != []
  {
    if n <= 0x7f then [n + 0x80] else Continued(n / 0x80 - 1) + [n % 0x80 + 0x80]
  }

  function Written(n: nat): (r: seq<Byte>)
    ensures r != []
  {
    if n <= 0x7f then [n] else Continued(n / 0x80 - 1) + [n % 0x80]
  }

  /** `WriteVarInt`: digits are made from the least significant one. */
  method WriteVarInt(n: nat) returns (os: seq<Byte>)
    ensures os == Written(n)
  {
    hide Continued, Written;
    var rest := n;
    os := [];
    while true
      invariant Written(n) == if os == [] then Written(rest) else Continued(rest) + os
      decreases rest
    {
      ghost var before := os;
      Steps(rest);
      os := [rest % 0x80 + if os != [] then 0x80 else 0] + os;
      if rest <= 0x7f {
        break;
      }
      assert Continued(rest / 0x80 - 1) + os == (Continued(rest / 0x80 - 1) + [os[0]]) + before;
      rest := rest / 0x80 - 1;
    }
  }

  /** The number that digits stand for, one more for each that announces others. */
  function Read(bytes: seq<Byte>): nat {
    if bytes == [] then 0
    else
      var last := bytes[|bytes| - 1];
      Read(bytes[..|bytes| - 1]) * 0x80 + last % 0x80 + if last >= 0x80 then 1 else 0
  }

  lemma ReadOne(bytes: seq<Byte>, c: Byte)
    ensures Read(bytes + [c]) == Read(bytes) * 0x80 + c % 0x80 + if c >= 0x80 then 1 else 0
  {
    assert (bytes + [c])[..|bytes|] == bytes;
  }

  /** Digits of which each announces another. */
  predicate Unfinished(bytes: seq<Byte>) {
    forall i :: 0 <= i < |bytes| ==> bytes[i] >= 0x80
  }

  lemma {:induction false} ReadContinued(n: nat)
    ensures Read(Continued(n)) == n + 1 && Unfinished(Continued(n))
    decreases n
  {
    Steps(n);
    ReadNone();
    hide Read, Continued;
    if n > 0x7f {
      var m := n / 0x80 - 1;
      ReadContinued(m);
      ReadOne(Continued(m), n % 0x80 + 0x80);
    } else {
      ReadOne([], n + 0x80);
      assert [] + [n + 0x80] == [n + 0x80];
    }
  }

  lemma Steps(n: nat)
    ensures Continued(n) == if n <= 0x7f then [n + 0x80] else Continued(n / 0x80 - 1) + [n % 0x80 + 0x80]
    ensures Written(n) == if n <= 0x7f then [n] else Continued(n / 0x80 - 1) + [n % 0x80]
  {
  }

  /** Reading what was written gives the number, and only the last byte ends it. */
  lemma ReadWritten(n: nat)
    ensures var w := Written(n); Read(w) == n && w[|w| - 1] < 0x80 && Unfinished(w[..|w| - 1])
  {
    Steps(n);
    ReadNone();
    hide Read, Continued, Written;
    if n > 0x7f {
      var m := n / 0x80 - 1;
      var c := Continued(m);
      ReadContinued(m);
      ReadOne(c, n % 0x80);
      assert Written(n)[..|c|] == c;
    } else {
      ReadOne([], n);
      assert [] + [n] == [n];
    }
  }

  lemma {:induction false} ContinuedRead(bytes: seq<Byte>)
    requires Unfinished(bytes) && bytes != []
    ensures Read(bytes) >= 1 && Continued(Read(bytes) - 1) == bytes
    decreases |bytes|
  {
    hide Read, Continued;
    var init, c := bytes[..|bytes| - 1], bytes[|bytes| - 1];
    assert bytes == init + [c];
    ReadOne(init, c);
    ReadNone();
    if init != [] {
      ContinuedRead(init);
    }
    OneMoreDigit(Read(init), c);
  }

  lemma OneMoreDigit(m: nat, c: Byte)
    requires c >= 0x80
    ensures Continued(m * 0x80 + c % 0x80) == (if m == 0 then [] else Continued(m - 1)) + [c]
  {
    var n := m * 0x80 + c % 0x80;
    assert n / 0x80 == m && n % 0x80 == c % 0x80;
  }

  /** Writing what was read gives the bytes: every number has exactly one encoding.  In a word of fixed width that
      holds only as long as the number fits; see ReadWord. */
  lemma WrittenRead(bytes: seq<Byte>, c: Byte)
    requires Unfinished(bytes) && c < 0x80
    ensures Written(Read(bytes + [c])) == bytes + [c]
  {
    hide Read, Written, Continued;
    ReadOne(bytes, c);
    ReadNone();
    if bytes != [] {
      ContinuedRead(bytes);
    }
    LastDigit(Read(bytes), c);
  }

  lemma LastDigit(m: nat, c: Byte)
    requires c < 0x80
    ensures Written(m * 0x80 + c) == (if m == 0 then [] else Continued(m - 1)) + [c]
  {
    var n := m * 0x80 + c;
    assert n / 0x80 == m && n % 0x80 == c;
  }

  ghost predicate StandsAt(bytes: seq<Byte>, at: nat, part: seq<Byte>) {
    at + |part| <= |bytes| && bytes[at..at + |part|] == part
  }

  /** `ReadVarInt`, from `from` on: what has been read is exactly the encoding of the number returned, and
      any encoding that stands there is read. */
  method ReadVarInt(bytes: seq<Byte>, from: nat) returns (ok: bool, n: nat, to: nat)
    requires from <= |bytes|
    ensures ok ==> from < to <= |bytes| && bytes[from..to] == Written(n)
    ensures forall m :: StandsAt(bytes, from, Written(m)) ==> ok && n == m && to == from + |Written(m)|
  {
    hide Written, Continued, Read;
    n, to := 0, from;
    ReadNone();
    assert bytes[from..to] == [];
    while to < |bytes|
      invariant from <= to <= |bytes| && n == Read(bytes[from..to]) && Unfinished(bytes[from..to])
      decreases |bytes| - to
    {
      var chData := bytes[to];
      ghost var before := bytes[from..to];
      ReadOne(before, chData);
      n := n * 0x80 + chData % 0x80;
      SliceOne(bytes, from, to);
      to := to + 1;
      if chData >= 0x80 {
        n := n + 1;
      } else {
        WrittenRead(before, chData);
        forall m | StandsAt(bytes, from, Written(m)) ensures n == m && to == from + |Written(m)| {
          SameEncoding(bytes, from, to, m);
        }
        return true, n, to;
      }
    }
    ok := false;
    assert bytes[from..to] == bytes[from..];
    forall m ensures !StandsAt(bytes, from, Written(m)) { NeverUnfinished(bytes, from, m); }
  }

  lemma SliceOne(bytes: seq<Byte>, from: nat, to: nat)
    requires from <= to < |bytes|
    ensures bytes[from..to + 1] == bytes[from..to] + [bytes[to]]
  {
  }

  lemma ReadNone()
    ensures Read([]) == 0
  {
  }

  /** Where the encoding of a number ends: at the first byte without the high bit. */
  lemma EndsAt(bytes: seq<Byte>, from: nat, m: nat) returns (last: nat)
    requires StandsAt(bytes, from, Written(m))
    ensures last == from + |Written(m)| - 1 && bytes[last] < 0x80 && Read(bytes[from..last + 1]) == m
    ensures forall i :: from <= i < last ==> bytes[i] >= 0x80
  {
    hide Written, Continued, Read;
    ReadWritten(m);
    var w := Written(m);
    last := from + |w| - 1;
    assert bytes[last] == bytes[from..last + 1][|w| - 1];
    forall i | from <= i < last ensures bytes[i] >= 0x80 {
      assert bytes[i] == bytes[from..last + 1][i - from] == w[..|w| - 1][i - from];
    }
  }

  /** No encoding is the beginning of another. */
  lemma SameEncoding(bytes: seq<Byte>, from: nat, to: nat, m: nat)
    requires from < to <= |bytes| && Unfinished(bytes[from..to - 1]) && bytes[to - 1] < 0x80 && StandsAt(bytes, from, Written(m))
    ensures to == from + |Written(m)| && Read(bytes[from..to]) == m
  {
    hide Written, Continued, Read;
    var last := EndsAt(bytes, from, m);
    assert forall i :: from <= i < to - 1 ==> bytes[i] == bytes[from..to - 1][i - from];
    assert last == to - 1;
  }

  lemma NeverUnfinished(bytes: seq<Byte>, from: nat, m: nat)
    requires from <= |bytes| && Unfinished(bytes[from..])
    ensures !StandsAt(bytes, from, Written(m))
  {
    hide Written, Continued, Read;
    assert forall i :: from <= i < |bytes| ==> bytes[i] == bytes[from..][i - from];
    if StandsAt(bytes, from, Written(m)) {
      var last := EndsAt(bytes, from, m);
      assert false;
    }
  }

  // ----- in words of fixed width

  /** One digit more, when only the remainder is kept. */
  lemma WordDigit(n: nat, d: nat, k: nat, m: nat)
    requires m > 0
    ensures (n % m * k + d) % m == (n * k + d) % m
  {
    var q, r := n / m, n % m;
    RemainderTimes(q, r, k, m);
    assert n == q * m + r;
    ModDrop(r * k + d, q * k, m);
  }

  lemma RemainderTimes(q: int, r: int, k: int, m: int)
    ensures (q * m + r) * k == r * k + q * k * m
  {
    MulDistrib(q * m, r, k);
    MulAssoc(q, m, k);
    MulAssoc(q, k, m);
  }

  /** `ReadVarInt` into an unsigned word of `width` bits: the number modulo 2^width.  The bytes are the encoding of what
      is returned exactly when the number they stand for fits. */
  method ReadWord(bytes: seq<Byte>, from: nat, width: nat) returns (ok: bool, n: nat, to: nat)
    requires from <= |bytes| && width >= 7
    ensures ok ==> from < to <= |bytes| && n == Read(bytes[from..to]) % Pow(2, width) < Pow(2, width)
    ensures ok ==> (bytes[from..to] == Written(n) <==> Read(bytes[from..to]) < Pow(2, width))
    ensures forall m: nat :: StandsAt(bytes, from, Written(m)) ==> ok && n == m % Pow(2, width) && to == from + |Written(m)|
  {
    hide Written, Continued, Read, Pow;
    var w := Pow(2, width);
    n, to := 0, from;
    ReadNone();
    ModSmall(0, w);
    assert bytes[from..to] == [];
    while to < |bytes|
      invariant from <= to <= |bytes| && n == Read(bytes[from..to]) % w && Unfinished(bytes[from..to])
      decreases |bytes| - to
    {
      var chData := bytes[to];
      ghost var before := bytes[from..to];
      ReadOne(before, chData);
      WordDigit(Read(before), chData % 0x80, 0x80, w);
      n := (n * 0x80 + chData % 0x80) % w;
      SliceOne(bytes, from, to);
      to := to + 1;
      if chData >= 0x80 {
        ModAdd(Read(before) * 0x80 + chData % 0x80, 1, w);
        n := (n + 1) % w;
      } else {
        WrittenRead(before, chData);
        WordExact(before + [chData], w);
        forall m: nat | StandsAt(bytes, from, Written(m)) ensures n == m % w && to == from + |Written(m)| {
          SameEncoding(bytes, from, to, m);
        }
        return true, n, to;
      }
    }
    ok := false;
    assert bytes[from..to] == bytes[from..];
    forall m ensures !StandsAt(bytes, from, Written(m)) { NeverUnfinished(bytes, from, m); }
  }

  lemma WordExact(bytes: seq<Byte>, w: nat)
    requires w > 0 && Written(Read(bytes)) == bytes
    ensures 0 <= Read(bytes) % w < w && (bytes == Written(Read(bytes) % w) <==> Read(bytes) < w)
  {
    hide Written, Continued, Read;
    var n := Read(bytes);
    if n < w {
      ModSmall(n, w);
    } else {
      ReadWritten(n);
      ReadWritten(n % w);
    }
  }

  const TWO32: nat := 0x1_0000_0000

  lemma Word32()
    ensures Pow(2, 32) == TWO32
  {
    assert Pow(2, 8) == 256;
    PowAdd(2, 8, 8);
    PowAdd(2, 16, 16);
  }

  lemma OverlongZero()
    ensures Written(TWO32) == [0x8e, 0xfe, 0xfe, 0xff, 0x00]
  {
    hide Written, Continued, Read;
    var b: seq<Byte> := [0x8e, 0xfe, 0xfe, 0xff];
    OverlongPrefix();
    ReadOne(b, 0);
    WrittenRead(b, 0);
    assert b + [0] == [0x8e, 0xfe, 0xfe, 0xff, 0x00];
  }

  lemma StandsAtStart(bytes: seq<Byte>)
    ensures StandsAt(bytes, 0, bytes)
  {
    assert bytes[0..|bytes|] == bytes;
  }

  lemma OverlongPrefix()
    ensures Read([0x8e, 0xfe, 0xfe, 0xff]) == 0x200_0000
  {
    ReadNone();
    hide Read;
    ReadOne([], 0x8e);
    assert [] + [0x8e] == [0x8e];
    ReadOne([0x8e], 0xfe);
    assert [0x8e] + [0xfe] == [0x8e, 0xfe];
    ReadOne([0x8e, 0xfe], 0xfe);
    assert [0x8e, 0xfe] + [0xfe] == [0x8e, 0xfe, 0xfe];
    ReadOne([0x8e, 0xfe, 0xfe], 0xff);
    assert [0x8e, 0xfe, 0xfe] + [0xff] == [0x8e, 0xfe, 0xfe, 0xff];
  }

  /** Two encodings of zero, for a reader of 32-bit words. */
  method TwoZeros() returns (short: seq<Byte>, long: seq<Byte>, n: nat, m: nat)
    ensures short != long && n == m == 0 && short == Written(0)
  {
    hide Written, Continued, Pow, Read;
    Word32();
    OverlongZero();
    Steps(0);
    short, long := [0], [0x8e, 0xfe, 0xfe, 0xff, 0x00];
    StandsAtStart(short);
    StandsAtStart(long);
    hide StandsAt;
    ModSmall(0, TWO32);
    DivUnique(TWO32, TWO32, 1, 0);
    var ok, to;
    ok, n, to := ReadWord(short, 0, 32);
    ok, m, to := ReadWord(long, 0, 32);
  }
}
