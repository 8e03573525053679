/** User memory as the kernel's copy routines see it: a map from address
    to byte in which an address is mapped when it is a key. `copyin` and
    `copyout` succeed exactly when every address they touch is mapped;
    words are 32-bit big-endian, as on the MIPS target. */
module UserMem {
  import opened Kern

  type Mem = map<int, byte>

  /** Every mapped address is a user address. */
  predicate UserMemory(mem: Mem)
  {
    forall a :: a in mem ==> 0 <= a < USERSPACETOP
  }

  /** Every address of `[a, a + n)` is mapped. */
  predicate Mapped(mem: Mem, a: int, n: nat)
  {
    forall x :: a <= x < a + n ==> x in mem
  }

  /** The `n` bytes at `a`. */
  function Read(mem: Mem, a: int, n: nat): (bs: seq<byte>)
    requires Mapped(mem, a, n)
    ensures |bs| == n && forall i :: 0 <= i < n ==> bs[i] == mem[a + i]
    decreases n
  {
    if n == 0 then [] else [mem[a]] + Read(mem, a + 1, n - 1)
  }

  /** `bs` stored at `a`. */
  function Write(mem: Mem, a: int, bs: seq<byte>): Mem
    decreases |bs|
  {
    if |bs| == 0 then mem else Write(mem[a := bs[0]], a + 1, bs[1..])
  }

  /** A write maps the addresses it stores to, stores `bs` there and
      leaves every other address as it was. */
  lemma {:induction false} WriteSpec(mem: Mem, a: int, bs: seq<byte>)
    decreases |bs|
    ensures var m := Write(mem, a, bs);
            && (forall x :: x in m <==> x in mem || a <= x < a + |bs|)
            && (forall i :: 0 <= i < |bs| ==> m[a + i] == bs[i])
            && (forall x :: x in mem && !(a <= x < a + |bs|) ==> m[x] == mem[x])
  {
    if |bs| > 0 {
      var mem' := mem[a := bs[0]];
      WriteSpec(mem', a + 1, bs[1..]);
      var m := Write(mem, a, bs);
      assert m == Write(mem', a + 1, bs[1..]);
      forall i | 0 <= i < |bs|
        ensures a + i in m && m[a + i] == bs[i]
      {
        if i == 0 {
          assert a in mem' && mem'[a] == bs[0];
        } else {
          assert a + i == (a + 1) + (i - 1) && bs[1..][i - 1] == bs[i];
        }
      }
    }
  }

  /** Reading back what was written gives it back. */
  lemma ReadWrite(mem: Mem, a: int, bs: seq<byte>)
    ensures Mapped(Write(mem, a, bs), a, |bs|)
    ensures Read(Write(mem, a, bs), a, |bs|) == bs
  {
    WriteSpec(mem, a, bs);
  }

  /** A write outside `[b, b + n)` leaves those bytes as they were. */
  lemma ReadOtherWrite(mem: Mem, a: int, bs: seq<byte>, b: int, n: nat)
    requires Mapped(mem, b, n) && (a + |bs| <= b || b + n <= a)
    ensures Mapped(Write(mem, a, bs), b, n)
    ensures Read(Write(mem, a, bs), b, n) == Read(mem, b, n)
  {
    WriteSpec(mem, a, bs);
  }

  /** Writing to mapped addresses maps nothing new. */
  lemma WriteKeepsDomain(mem: Mem, a: int, bs: seq<byte>)
    requires Mapped(mem, a, |bs|)
    ensures Write(mem, a, bs).Keys == mem.Keys
  {
    WriteSpec(mem, a, bs);
    var m := Write(mem, a, bs);
    assert forall x :: x in m.Keys <==> x in mem.Keys;
  }

  /** The 32-bit word `w`, most significant byte first. */
  function EncodeWord(w: u32): (bs: seq<byte>)
    ensures |bs| == 4
  {
    var x := w as int;
    [(x / 0x100_0000) as byte, (x / 0x1_0000 % 256) as byte, (x / 0x100 % 256) as byte, (x % 256) as byte]
  }

  /** The word four bytes spell, most significant first. */
  function DecodeWord(bs: seq<byte>): (w: u32)
    requires |bs| == 4
  {
    (bs[0] as int * 0x100_0000 + bs[1] as int * 0x1_0000 + bs[2] as int * 0x100 + bs[3] as int) as u32
  }

  /** Decoding an encoded word gives the word back. */
  lemma DecodeEncode(w: u32)
    ensures DecodeWord(EncodeWord(w)) == w
  {
    JoinWord(w as int);
  }

  /** A word is the sum of its bytes, most significant first. */
  lemma JoinWord(x: int)
    requires 0 <= x < U32
    ensures x / 0x100_0000 * 0x100_0000 + x / 0x1_0000 % 256 * 0x1_0000 + x / 0x100 % 256 * 0x100 + x % 256 == x
  {
    var hi, lo := x / 0x1_0000, x % 0x1_0000;
    JoinHalf(hi);
    JoinHalf(lo);
    ShiftDiv(x, hi, lo);
  }

  /** A 16-bit value is the sum of its two bytes. */
  lemma JoinHalf(y: int)
    requires 0 <= y < 0x1_0000
    ensures y == y / 0x100 * 0x100 + y % 0x100
  {
  }

  /** Splitting `x` at bit 16 and again at bits 24 and 8. */
  lemma ShiftDiv(x: int, hi: int, lo: int)
    requires 0 <= x && hi == x / 0x1_0000 && lo == x % 0x1_0000
    ensures x == hi * 0x1_0000 + lo
    ensures hi / 0x100 == x / 0x100_0000 && hi % 0x100 == x / 0x1_0000 % 256
    ensures lo / 0x100 == x / 0x100 % 256 && lo % 0x100 == x % 256
  {
    var a, b := hi / 0x100, hi % 0x100;
    var c, e := lo / 0x100, lo % 0x100;
    DivUnique(x, 0x100_0000, a, b * 0x1_0000 + lo);
    DivUnique(x, 0x100, hi * 0x100 + c, e);
    DivUnique(hi * 0x100 + c, 0x100, hi, c);
  }

  /** Division by `d` is determined by a quotient and a remainder. */
  lemma DivUnique(x: int, d: int, q: int, r: int)
    requires 0 < d && 0 <= r < d && x == q * d + r
    ensures x / d == q && x % d == r
  {
    var q', r' := x / d, x % d;
    assert (q - q') * d == r' - r;
    if q > q' {
      MulAtLeast(q - q', d);
    } else if q < q' {
      MulAtLeast(q' - q, d);
    }
  }

  /** A positive multiple of `d` is at least `d`. */
  lemma MulAtLeast(k: int, d: int)
    requires 1 <= k && 0 < d
    ensures k * d >= d
  {
  }

  /** Encoding a decoded word gives the bytes back. */
  lemma EncodeDecode(bs: seq<byte>)
    requires |bs| == 4
    ensures EncodeWord(DecodeWord(bs)) == bs
  {
    var x := DecodeWord(bs) as int;
    SplitWord(bs[0] as int, bs[1] as int, bs[2] as int, bs[3] as int);
    assert x / 0x100_0000 == bs[0] as int && x / 0x1_0000 % 256 == bs[1] as int;
    assert x / 0x100 % 256 == bs[2] as int && x % 256 == bs[3] as int;
  }

  /** The bytes of a word, most significant first, are recovered by
      division. */
  lemma SplitWord(b0: int, b1: int, b2: int, b3: int)
    requires 0 <= b0 < 256 && 0 <= b1 < 256 && 0 <= b2 < 256 && 0 <= b3 < 256
    ensures var x := b0 * 0x100_0000 + b1 * 0x1_0000 + b2 * 0x100 + b3;
            && x / 0x100_0000 == b0 && x / 0x1_0000 % 256 == b1
            && x / 0x100 % 256 == b2 && x % 256 == b3
  {
    var x := b0 * 0x100_0000 + b1 * 0x1_0000 + b2 * 0x100 + b3;
    DivUnique(x, 0x100_0000, b0, b1 * 0x1_0000 + b2 * 0x100 + b3);
    DivUnique(x, 0x1_0000, b0 * 0x100 + b1, b2 * 0x100 + b3);
    DivUnique(b0 * 0x100 + b1, 0x100, b0, b1);
    DivUnique(x, 0x100, b0 * 0x1_0000 + b1 * 0x100 + b2, b3);
    DivUnique(b0 * 0x1_0000 + b1 * 0x100 + b2, 0x100, b0 * 0x100 + b1, b2);
  }

  /** `seen` put in front of a result that may be missing. */
  function Prepend<T>(seen: seq<T>, r: Option<seq<T>>): (p: Option<seq<T>>)
    ensures p.Some? <==> r.Some?
    ensures p.Some? ==> p.value == seen + r.value
  {
    match r
    case None => None
    case Some(rest) => Some(seen + rest)
  }

  lemma PrependNil<T>(r: Option<seq<T>>)
    ensures Prepend([], r) == r
  {
    if r.Some? {
      assert [] + r.value == r.value;
    }
  }

  lemma PrependTwice<T>(a: seq<T>, b: seq<T>, r: Option<seq<T>>)
    ensures Prepend(a, Prepend(b, r)) == Prepend(a + b, r)
  {
    if r.Some? {
      assert a + (b + r.value) == (a + b) + r.value;
    }
  }

  /** The four bytes of a word at `a` are mapped. */
  predicate WordMapped(mem: Mem, a: int)
  {
    a in mem && a + 1 in mem && a + 2 in mem && a + 3 in mem
  }

  lemma WordMappedIsMapped(mem: Mem, a: int)
    ensures WordMapped(mem, a) <==> Mapped(mem, a, 4)
  {
  }

  /** `copyin` of one word at `a`: None when it faults. */
  function WordAt(mem: Mem, a: int): (w: Option<u32>)
    ensures w.Some? <==> WordMapped(mem, a)
  {
    if WordMapped(mem, a) then Some(DecodeWord([mem[a], mem[a + 1], mem[a + 2], mem[a + 3]])) else None
  }

  /** The bytes of the C string at `a`, without its NUL; None when a byte
      before the NUL, or the NUL itself, is not mapped. */
  function CString(mem: Mem, a: int): (s: Option<seq<byte>>)
    requires UserMemory(mem)
    decreases USERSPACETOP - a
  {
    if a !in mem then None
    else if mem[a] == 0 then Some([])
    else match CString(mem, a + 1)
      case None => None
      case Some(rest) => Some([mem[a]] + rest)
  }

  /** A C string found at `a` is NUL-free, and it and its NUL are mapped
      where it says. */
  lemma {:induction false} CStringSpec(mem: Mem, a: int)
    requires UserMemory(mem)
    decreases USERSPACETOP - a
    ensures var s := CString(mem, a);
            s.Some? ==> && Mapped(mem, a, |s.value| + 1)
                        && Read(mem, a, |s.value| + 1) == s.value + [0]
                        && forall i :: 0 <= i < |s.value| ==> s.value[i] != 0
  {
    if a in mem && mem[a] != 0 {
      CStringSpec(mem, a + 1);
    }
  }

  /** The C string `s` with its NUL is stored at `a`. */
  predicate StringAt(mem: Mem, a: int, s: seq<byte>)
  {
    && a + |s| in mem && mem[a + |s|] == 0
    && forall x :: a <= x < a + |s| ==> x in mem && mem[x] == s[x - a]
  }

  /** `s` has no NUL byte. */
  predicate NulFree(s: seq<byte>)
  {
    forall j :: 0 <= j < |s| ==> s[j] != 0
  }

  /** Writing `s` and a NUL stores the C string `s`. */
  lemma WriteString(mem: Mem, a: int, s: seq<byte>)
    ensures StringAt(Write(mem, a, s + [0]), a, s)
  {
    WriteSpec(mem, a, s + [0]);
    var m := Write(mem, a, s + [0]);
    assert m[a + |s|] == (s + [0])[|s|];
    forall x | a <= x < a + |s|
      ensures x in m && m[x] == s[x - a]
    {
      assert m[a + (x - a)] == (s + [0])[x - a];
    }
  }

  /** A NUL-free string stored at `a` is the C string found there. */
  lemma {:induction false} CStringAt(mem: Mem, a: int, s: seq<byte>)
    requires UserMemory(mem) && StringAt(mem, a, s) && NulFree(s)
    decreases |s|
    ensures CString(mem, a) == Some(s)
  {
    if |s| > 0 {
      assert a in mem && mem[a] == s[a - a];
      assert StringAt(mem, a + 1, s[1..]) by {
        assert (a + 1) + |s[1..]| == a + |s|;
        forall x | a + 1 <= x < (a + 1) + |s[1..]|
          ensures x in mem && mem[x] == s[1..][x - (a + 1)]
        {
          assert s[1..][x - (a + 1)] == s[x - a];
        }
      }
      CStringAt(mem, a + 1, s[1..]);
      assert [s[0]] + s[1..] == s;
    }
  }

  /** Storing an encoded word and reading it back gives the word. */
  lemma WordWrite(mem: Mem, a: int, w: u32)
    ensures WordAt(Write(mem, a, EncodeWord(w)), a) == Some(w)
  {
    var bs := EncodeWord(w);
    WriteSpec(mem, a, bs);
    var m := Write(mem, a, bs);
    assert m[a + 0] == bs[0] && m[a + 1] == bs[1] && m[a + 2] == bs[2] && m[a + 3] == bs[3];
    assert [m[a], m[a + 1], m[a + 2], m[a + 3]] == bs;
    DecodeEncode(w);
  }

  /** The NUL-terminated pointer vector at `a`: the non-NULL words before
      the first NULL word; None when a word up to that one is not mapped. */
  function ArgPtrs(mem: Mem, a: int): (ps: Option<seq<u32>>)
    requires UserMemory(mem)
    decreases USERSPACETOP - a
    ensures ps.Some? ==> forall i :: 0 <= i < |ps.value| ==> ps.value[i] != 0
  {
    match WordAt(mem, a)
    case None => None
    case Some(w) =>
      if w == 0 then Some([])
      else match ArgPtrs(mem, a + 4)
        case None => None
        case Some(rest) => Some([w] + rest)
  }

  /** Pointer `i` of a vector found at `a` is the word at `a + 4 * i`. */
  lemma {:induction false} ArgPtrAt(mem: Mem, a: int, i: nat)
    requires UserMemory(mem) && ArgPtrs(mem, a).Some? && i < |ArgPtrs(mem, a).value|
    decreases i
    ensures WordAt(mem, a + 4 * i) == Some(ArgPtrs(mem, a).value[i])
  {
    if i > 0 {
      ArgPtrAt(mem, a + 4, i - 1);
      assert a + 4 * i == (a + 4) + 4 * (i - 1);
    }
  }

  /** The word after the last pointer of a vector found at `a` is NULL. */
  lemma {:induction false} ArgPtrsEnd(mem: Mem, a: int)
    requires UserMemory(mem) && ArgPtrs(mem, a).Some?
    decreases USERSPACETOP - a
    ensures WordAt(mem, a + 4 * |ArgPtrs(mem, a).value|) == Some(0)
  {
    if WordAt(mem, a).value != 0 {
      ArgPtrsEnd(mem, a + 4);
      assert a + 4 * |ArgPtrs(mem, a).value| == (a + 4) + 4 * |ArgPtrs(mem, a + 4).value|;
    }
  }

  /** A string stored at or above `lo` is still stored in memory that
      agrees from `lo` up. */
  lemma StringAtKept(mem: Mem, mem': Mem, lo: int, a: int, s: seq<byte>)
    requires StringAt(mem, a, s) && lo <= a && mem'.Keys == mem.Keys
    requires forall x :: x in mem && x >= lo ==> mem'[x] == mem[x]
    ensures StringAt(mem', a, s)
  {
    forall x | a <= x < a + |s|
      ensures x in mem' && mem'[x] == s[x - a]
    {
      assert x in mem;
    }
  }

  /** A NUL-free string stored at or above `lo` is still the C string
      found there in memory that agrees from `lo` up. */
  lemma StringKept(mem: Mem, mem': Mem, lo: int, a: int, s: seq<byte>)
    requires StringAt(mem, a, s) && NulFree(s) && lo <= a
    requires UserMemory(mem') && mem'.Keys == mem.Keys
    requires forall x :: x in mem && x >= lo ==> mem'[x] == mem[x]
    ensures CString(mem', a) == Some(s)
  {
    assert mem'[a + |s|] == mem[a + |s|];
    StringAtKept(mem, mem', lo, a, s);
    CStringAt(mem', a, s);
  }
}
