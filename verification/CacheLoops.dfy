/** The loops of sys_devcon_cache_pic32mz.S over the lines of an address range and over a whole cache. Registers
  are 32 bits wide; a loop ends when two of them are equal, and its last instruction is executed on the way
  out too. */
module CacheLoops {
  import opened Arithmetic

  const WORDS := 0x1_0000_0000

  type Word = x: int | 0 <= x < WORDS

  /** Addition in a register. */
  function Add(x: Word, y: Word): Word {
    if x + y >= WORDS then x + y - WORDS else x + y
  }

  /** A line size: the powers of two up to 2^31 are the divisors of 2^32 below it. */
  predicate LineSize(line: Word) {
    line > 0 && WORDS % line == 0
  }

  /** x & ~(line - 1), for a power of two */
  function AlignDown(x: nat, line: nat): (r: nat)
    requires line > 0
    ensures r <= x < r + line
  {
    x - x % line
  }

  /** The register that holds the unbounded address x. */
  function Wrap(x: nat): Word
    requires x < 2 * WORDS
  {
    if x >= WORDS then x - WORDS else x
  }

  /** Addresses are unbounded ones modulo 2^32, in registers too. */
  lemma Modulo(x: nat, y: Word, z: Word)
    ensures x < 0x2_0000_0000 ==> x < 2 * WORDS && Wrap(x) == x % 0x1_0000_0000
    ensures Add(y, z) == (y + z) % 0x1_0000_0000
  {
  }

  /** The k-th line from the address first. */
  function Line(first: nat, line: nat, k: nat): nat {
    if k == 0 then first else Line(first, line, k - 1) + line
  }

  lemma {:induction false} LineOrder(first: nat, line: nat, j: nat, k: nat)
    requires j <= k
    ensures Line(first, line, j) <= Line(first, line, k)
    ensures j < k ==> Line(first, line, j) + line <= Line(first, line, k)
    decreases k - j
  {
    if j < k {
      LineOrder(first, line, j, k - 1);
    }
  }

  lemma {:induction false} LineProduct(first: nat, line: nat, k: nat)
    ensures Line(first, line, k) == first + line * k
    decreases k
  {
    if k > 0 {
      LineProduct(first, line, k - 1);
      assert line * k == line * (k - 1) + line;
    }
  }

  /** Rounding down commutes with wrap-around. */
  lemma AlignWrapped(x: nat, line: Word)
    requires LineSize(line) && x < 2 * WORDS
    ensures AlignDown(Wrap(x), line) == Wrap(AlignDown(x, line))
  {
    var whole, q := WORDS / line, x / line;
    assert WORDS == line * whole && x == line * q + x % line;
    if x >= WORDS {
      assert line * (q - whole) == line * q - line * whole;
      Remainder(x - WORDS, line, q - whole, x % line);
      assert line * (q + 1) == line * q + line;
      Ordered(line, q + 1, whole);
    }
  }

  /** The operations go to the lines from first on that hold a byte of the range, to all of them, and to each
    of them once. */
  ghost predicate ExactlyTheLines(ops: seq<Word>, first: Word, addr: Word, n: Word, line: Word)
  {
    && (forall k :: 0 <= k < |ops| ==>
          Line(first, line, k) < addr + n < first + WORDS && addr < Line(first, line, k) + line &&
          ops[k] == Wrap(Line(first, line, k)))
    && addr + n <= Line(first, line, |ops|)
    && (forall j, k :: 0 <= j < k < |ops| ==> ops[j] != ops[k])
  }

  lemma LinesDistinct(first: nat, line: nat, j: nat, k: nat)
    requires line > 0 && j < k && Line(first, line, k) < first + WORDS && first < WORDS
    ensures Line(first, line, j) < 2 * WORDS && Line(first, line, k) < 2 * WORDS
    ensures Wrap(Line(first, line, j)) != Wrap(Line(first, line, k))
  {
    LineOrder(first, line, 0, j);
    LineOrder(first, line, j, k);
  }

  /** The last line of the range is a whole number of lines from the first. */
  lemma LastLine(addr: Word, n: Word, line: Word) returns (q: nat)
    requires line > 0 && 0 < n < WORDS / 2
    ensures Line(AlignDown(addr, line), line, q) == AlignDown(addr + n - 1, line)
  {
    var a, b := addr / line, (addr + n - 1) / line;
    assert addr == line * a + addr % line && addr + n - 1 == line * b + (addr + n - 1) % line;
    assert line * (b + 1) == line * b + line;
    Ordered(line, b + 1, a);
    q := b - a;
    assert line * (b - a) == line * b - line * a;
    LineProduct(AlignDown(addr, line), line, q);
  }

  /** Some of the lines up to the q-th have been dealt with, in order. */
  ghost predicate Done(ops: seq<Word>, first: Word, line: Word, q: nat) {
    && |ops| <= q + 1
    && forall k {:trigger ops[k]} :: 0 <= k < |ops| ==>
         Line(first, line, k) < 2 * WORDS && ops[k] == Wrap(Line(first, line, k))
  }

  lemma Extend(ops: seq<Word>, first: Word, line: Word, q: nat)
    requires Done(ops, first, line, q) && |ops| <= q && Line(first, line, |ops|) < 2 * WORDS
    ensures Done(ops + [Wrap(Line(first, line, |ops|))], first, line, q)
  {
    var more := ops + [Wrap(Line(first, line, |ops|))];
    forall k | 0 <= k < |more|
      ensures Line(first, line, k) < 2 * WORDS && more[k] == Wrap(Line(first, line, k))
    {
      if k < |ops| {
        assert more[k] == ops[k];
      }
    }
  }

  /** The two registers are equal at the last line and not before; and the next line is in reach. */
  lemma NextLine(ops: seq<Word>, first: Word, line: Word, q: nat)
    requires Done(ops, first, line, q) && |ops| <= q && line > 0 && Line(first, line, q) < first + WORDS
    ensures Line(first, line, |ops|) < 2 * WORDS && Line(first, line, q) < 2 * WORDS
    ensures var t0 := Wrap(Line(first, line, |ops|));
            && Done(ops + [t0], first, line, q)
            && (t0 == Wrap(Line(first, line, q)) <==> |ops| == q)
            && (|ops| < q ==>
                  Line(first, line, |ops| + 1) < 2 * WORDS && Add(t0, line) == Wrap(Line(first, line, |ops| + 1)))
  {
    LineOrder(first, line, |ops|, q);
    Extend(ops, first, line, q);
    if |ops| < q {
      LinesDistinct(first, line, |ops|, q);
      LineOrder(first, line, |ops| + 1, q);
    }
  }

  lemma AllLines(ops: seq<Word>, first: Word, addr: Word, n: Word, line: Word, q: nat)
    requires Done(ops, first, line, q) && |ops| == q + 1 && first <= addr < first + line
    requires Line(first, line, q) < addr + n <= Line(first, line, q) + line && addr + n < first + WORDS
    ensures ExactlyTheLines(ops, first, addr, n, line)
  {
    forall k | 0 <= k < |ops|
      ensures Line(first, line, k) < addr + n && addr < Line(first, line, k) + line
    {
      LineOrder(first, line, 0, k);
      LineOrder(first, line, k, q);
    }
    forall j, k | 0 <= j < k < |ops|
      ensures ops[j] != ops[k]
    {
      LineOrder(first, line, k, q);
      LinesDistinct(first, line, j, k);
    }
  }

  /** Where the range begins and ends, and that the end register wraps to its last line. */
  lemma Ends(addr: Word, n: Word, line: Word) returns (q: nat)
    requires LineSize(line) && 0 < n < WORDS / 2
    ensures var first := AlignDown(addr, line);
            && first <= addr < first + line && addr + n < first + WORDS
            && Line(first, line, q) < addr + n <= Line(first, line, q) + line
            && AlignDown(Add(Add(addr, n), WORDS - 1), line) == Wrap(Line(first, line, q))
  {
    q := LastLine(addr, n, line);
    AlignWrapped(addr + n - 1, line);
    HalfAtMost(line);
  }

  lemma HalfAtMost(line: Word)
    requires LineSize(line)
    ensures line <= WORDS / 2
  {
    var whole := WORDS / line;
    assert WORDS == line * whole;
    Ordered(line, 2, whole);
    Ordered(line, whole, 1);
  }

  /** The range loop, shared by the clean and invalidate functions. A length that is not positive as a signed
    number skips it, and so does a line size of 0. */
  method CleanRange(addr: Word, n: Word, line: Word) returns (ops: seq<Word>)
    requires line != 0 ==> LineSize(line)
    ensures line == 0 || n == 0 || n >= WORDS / 2 ==> ops == []
    ensures line != 0 && 0 < n < WORDS / 2 ==> ExactlyTheLines(ops, AlignDown(addr, line), addr, n, line)
  {
    ops := [];
    if line == 0 || n == 0 || n >= WORDS / 2 {
      return;
    }
    ghost var first: Word := AlignDown(addr, line);
    ghost var q := Ends(addr, n, line);
    var t1 := Add(addr, n);
    var t0: Word := AlignDown(addr, line);
    t1 := Add(t1, WORDS - 1);
    t1 := AlignDown(t1, line);
    var more := true;
    while more
      invariant Done(ops, first, line, q) && (more <==> |ops| <= q)
      invariant more ==> Line(first, line, |ops|) < 2 * WORDS && t0 == Wrap(Line(first, line, |ops|))
      decreases q + 1 - |ops|
    {
      NextLine(ops, first, line, q);
      ops := ops + [t0];
      more := t0 != t1;
      t0 := Add(t0, line);
    }
    AllLines(ops, first, addr, n, line, q);
  }

  lemma WholeCache(base: nat, size: nat, line: nat)
    requires line > 0 && size % line == 0
    ensures Line(base, line, size / line) == base + size
    ensures size > 0 ==> size / line > 0
  {
    LineProduct(base, line, size / line);
    assert size == line * (size / line);
  }

  /** The k-th operation is on the last word of the k-th line. */
  ghost predicate OnePerLine(ops: seq<Word>, base: nat, line: nat) {
    forall k {:trigger ops[k]} :: 0 <= k < |ops| ==>
      0 <= Line(base, line, k) + line - 4 < 2 * WORDS && ops[k] == Wrap(Line(base, line, k) + line - 4)
  }

  /** The next address, the word below it, and that it is the end exactly after the last line. */
  lemma NextInCache(base: Word, size: Word, line: Word, k: nat)
    requires 4 <= line && size % line == 0 && k < size / line
    ensures var (x, y) := (Line(base, line, k), Line(base, line, k + 1));
            && y == x + line && y <= base + size && Add(Wrap(x), line) == Wrap(y)
            && Add(Wrap(y), WORDS - 4) == Wrap(y - 4)
            && (Wrap(y) == Wrap(base + size) <==> k + 1 == size / line)
  {
    WholeCache(base, size, line);
    LineOrder(base, line, 0, k);
    LineOrder(base, line, k + 1, size / line);
    if k + 1 < size / line {
      LinesDistinct(base, line, k + 1, size / line);
    }
  }

  lemma OneMore(ops: seq<Word>, base: nat, line: nat, op: Word)
    requires OnePerLine(ops, base, line)
    requires 0 <= Line(base, line, |ops|) + line - 4 < 2 * WORDS && op == Wrap(Line(base, line, |ops|) + line - 4)
    ensures OnePerLine(ops + [op], base, line)
  {
    var more := ops + [op];
    forall k | 0 <= k < |more|
      ensures 0 <= Line(base, line, k) + line - 4 < 2 * WORDS && more[k] == Wrap(Line(base, line, k) + line - 4)
    {
      if k < |ops| {
        assert more[k] == ops[k];
      }
    }
  }

  /** The loop over a whole cache, at any base: the address is advanced first, and the line cleared through an offset
    of -4. */
  method InitCache(base: Word, size: Word, line: Word) returns (ops: seq<Word>)
    requires 4 <= line && size % line == 0
    ensures OnePerLine(ops, base, line) && Line(base, line, |ops|) == base + size
  {
    ops := [];
    if size == 0 {
      return;
    }
    ghost var n := size / line;
    WholeCache(base, size, line);
    var a0, a1 := base, Add(base, size);
    var more := true;
    while more
      invariant |ops| <= n && (more <==> |ops| < n)
      invariant Line(base, line, |ops|) < 2 * WORDS && a0 == Wrap(Line(base, line, |ops|))
      invariant OnePerLine(ops, base, line)
      decreases n - |ops|
    {
      NextInCache(base, size, line, |ops|);
      a0 := Add(a0, line);
      more := a0 != a1;
      OneMore(ops, base, line, Add(a0, WORDS - 4));
      ops := ops + [Add(a0, WORDS - 4)];
    }
  }

  // ---------- Every line of the cache ----------

  /** The line of the cache that an index operation on an address works on. */
  function CacheIndex(a: nat, size: nat, line: nat): nat
    requires size > 0 && line > 0
  {
    a % size / line
  }

  /** A cache that fills an address range of its size: a whole number of lines, and a divisor of 2^32. */
  predicate CacheSize(size: Word, line: Word) {
    4 <= line && 0 < size && size % line == 0 && WORDS % size == 0
  }

  lemma Decomposed(line: int, lines: int, t: int, m: int, r: int)
    requires line > 0 && lines > 0 && 0 <= m < lines && 0 <= r < line
    ensures 0 <= line * m + r < line * lines
    ensures line * (lines * t + m) + r == (line * lines) * t + (line * m + r)
  {
    Ordered(line, 0, m);
    Ordered(line, m + 1, lines);
    assert line * (m + 1) == line * m + line;
    assert line * (lines * t + m) == line * (lines * t) + line * m;
    assert line * (lines * t) == (line * lines) * t;
  }

  lemma IndexByParts(line: nat, lines: nat, t: nat, m: nat, r: nat)
    requires line > 0 && m < lines && r < line
    ensures line * lines > 0 && CacheIndex(line * (lines * t + m) + r, line * lines, line) == m
  {
    Decomposed(line, lines, t, m, r);
    Remainder(line * (lines * t + m) + r, line * lines, t, line * m + r);
    Remainder(line * m + r, line, m, r);
  }

  lemma Divide(x: nat, n: nat) returns (q: nat, r: nat)
    requires n > 0
    ensures x == n * q + r && r < n && q == x / n && r == x % n
  {
    q, r := x / n, x % n;
  }

  /** The cache line of an address is its line number, modulo the number of lines. */
  lemma IndexOf(a: nat, size: nat, line: nat, lines: nat)
    requires line > 0 && lines > 0 && size == line * lines && size > 0
    ensures CacheIndex(a, size, line) == a / line % lines
  {
    var q, r := Divide(a, line);
    var t, m := Divide(q, lines);
    IndexByParts(line, lines, t, m, r);
  }

  /** Wrap-around does not change the cache line. */
  lemma WrappedIndex(a: nat, size: Word, line: Word)
    requires CacheSize(size, line) && a < 2 * WORDS
    ensures CacheIndex(Wrap(a), size, line) == CacheIndex(a, size, line)
  {
    if a >= WORDS {
      var w, q := WORDS / size, a / size;
      assert WORDS == size * w && a == size * q + a % size;
      assert size * (q - w) == size * q - size * w;
      Remainder(a - WORDS, size, q - w, a % size);
    }
  }

  lemma LinesOn(c: nat, line: nat, k: nat)
    requires line > 0
    ensures (c + line * k) / line == c / line + k
  {
    var q, r := c / line, c % line;
    assert c == line * q + r;
    assert line * (q + k) == line * q + line * k;
    Remainder(c + line * k, line, q + k, r);
  }

  lemma IndexFrom(c: nat, a: nat, size: Word, line: Word, k: nat)
    requires CacheSize(size, line) && a == c + line * k && a < 2 * WORDS
    ensures size / line > 0 && CacheIndex(Wrap(a), size, line) == (c / line + k) % (size / line)
  {
    LinesOn(c, line, k);
    WrappedIndex(a, size, line);
    WholeCache(0, size, line);
    LineProduct(0, line, size / line);
    IndexOf(a, size, line, size / line);
  }

  /** The k-th operation works on the k-th cache line behind line q, cyclically. */
  ghost predicate InTurn(ops: seq<Word>, size: Word, line: Word, q: nat)
    requires CacheSize(size, line)
  {
    |ops| == size / line &&
    forall k {:trigger ops[k]} :: 0 <= k < |ops| ==> CacheIndex(ops[k], size, line) == (q + k) % |ops|
  }

  lemma OperationsInTurn(ops: seq<Word>, base: Word, size: Word, line: Word)
    requires CacheSize(size, line) && OnePerLine(ops, base, line) && |ops| == size / line
    ensures InTurn(ops, size, line, (base + line - 4) / line)
  {
    forall k | 0 <= k < |ops|
      ensures CacheIndex(ops[k], size, line) == ((base + line - 4) / line + k) % |ops|
    {
      LineProduct(base, line, k);
      IndexFrom(base + line - 4, Line(base, line, k) + line - 4, size, line, k);
    }
  }

  lemma CyclicAt(q: nat, n: nat, j: nat)
    requires j < n
    ensures (q + j) % n == if q % n + j < n then q % n + j else q % n + j - n
  {
    var m, t := q % n, q / n;
    assert q == n * t + m;
    assert n * (t + 1) == n * t + n;
    if m + j < n {
      Remainder(q + j, n, t, m + j);
    } else {
      Remainder(q + j, n, t + 1, m + j - n);
    }
  }

  lemma AsManyAsLines(ops: seq<Word>, base: Word, size: Word, line: Word)
    requires CacheSize(size, line) && Line(base, line, |ops|) == base + size
    ensures |ops| == size / line
  {
    LineProduct(base, line, |ops|);
    assert size == line * |ops| + 0;
    Remainder(size, line, |ops|, 0);
  }

  lemma OnceInTurn(ops: seq<Word>, size: Word, line: Word, q: nat, i: nat) returns (k: nat)
    requires CacheSize(size, line) && InTurn(ops, size, line, q) && i < |ops|
    ensures k < |ops| && CacheIndex(ops[k], size, line) == i
    ensures forall j :: 0 <= j < |ops| && CacheIndex(ops[j], size, line) == i ==> j == k
  {
    var m := q % |ops|;
    k := if m <= i then i - m else i + |ops| - m;
    CyclicAt(q, |ops|, k);
    assert CacheIndex(ops[k], size, line) == i;
    forall j | 0 <= j < |ops| && CacheIndex(ops[j], size, line) == i
      ensures j == k
    {
      CyclicAt(q, |ops|, j);
    }
  }

  /** What InitCache promises makes it operate on every line of the cache, and on each of them once. */
  lemma EveryLineOnce(ops: seq<Word>, base: Word, size: Word, line: Word, i: nat) returns (k: nat)
    requires CacheSize(size, line) && i < size / line
    requires OnePerLine(ops, base, line) && Line(base, line, |ops|) == base + size
    ensures k < |ops| && CacheIndex(ops[k], size, line) == i
    ensures forall j :: 0 <= j < |ops| && CacheIndex(ops[j], size, line) == i ==> j == k
  {
    AsManyAsLines(ops, base, size, line);
    OperationsInTurn(ops, base, size, line);
    k := OnceInTurn(ops, size, line, (base + line - 4) / line, i);
  }
}
