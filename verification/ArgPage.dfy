/**
  The first stack page of a spawned program: argc, the argv pointer, the pointer array with its
  null word, and the strings up to the top of the page. The parent writes the page at UTEMP, the
  child reads it at the top of its stack, so every pointer in it is a child address.
*/
module ArgPage {
  import opened Words

  const PGSIZE: int := 4096
  const UTEMP: int := 0x0040_0000
  const USTACKTOP: int := 0xeebf_e000

  type Bytes = seq<int>

  /** A C string without its terminator. */
  predicate IsString(s: Bytes) {
    forall k :: 0 <= k < |s| ==> 0 < s[k] < 256
  }

  predicate IsArgv(argv: seq<Bytes>) {
    forall i :: 0 <= i < |argv| ==> IsString(argv[i])
  }

  // ----- layout, as offsets into the page -----

  /** Room for the strings with their terminators. */
  function Size(argv: seq<Bytes>): (n: int)
    ensures n >= |argv|
  {
    if argv == [] then 0 else Size(argv[..|argv| - 1]) + |argv[|argv| - 1]| + 1
  }

  /** Where string `i` starts. */
  function StringOff(argv: seq<Bytes>, i: int): int
    requires 0 <= i <= |argv|
  {
    PGSIZE - Size(argv) + Size(argv[..i])
  }

  function RoundDown4(n: int): int {
    n - n % 4
  }

  /** Where the pointer array starts. */
  function ArgvOff(argv: seq<Bytes>): int {
    RoundDown4(PGSIZE - Size(argv)) - 4 * (|argv| + 1)
  }

  predicate Fits(argv: seq<Bytes>) {
    ArgvOff(argv) - 8 >= 0
  }

  function ToChild(off: int): int {
    USTACKTOP - PGSIZE + off
  }

  lemma NextString(argv: seq<Bytes>, i: int)
    requires 0 <= i < |argv|
    ensures StringOff(argv, i + 1) == StringOff(argv, i) + |argv[i]| + 1
  {
    assert argv[..i + 1][..i] == argv[..i];
  }

  lemma {:induction false} SizeGrows(argv: seq<Bytes>, i: int)
    requires 0 <= i <= |argv|
    ensures Size(argv[..i]) <= Size(argv)
    decreases |argv| - i
  {
    if i == |argv| {
      assert argv[..i] == argv;
    } else {
      SizeGrows(argv, i + 1);
      assert argv[..i + 1][..i] == argv[..i];
    }
  }

  /** The strings end at the top of the page, and follow each other below it. */
  lemma StringsInPage(argv: seq<Bytes>, i: int)
    requires 0 <= i < |argv| && Fits(argv)
    ensures ArgvOff(argv) + 4 * (|argv| + 1) <= StringOff(argv, 0) <= StringOff(argv, i)
    ensures StringOff(argv, i) + |argv[i]| + 1 == StringOff(argv, i + 1) <= StringOff(argv, |argv|) == PGSIZE
  {
    NextString(argv, i);
    SizeGrows(argv, i + 1);
    assert argv[..0] == [] && argv[..|argv|] == argv;
  }

  // ----- the page as bytes -----

  ghost predicate StringAt(p: Bytes, off: int, s: Bytes) {
    0 <= off && off + |s| < |p| && p[off..off + |s|] == s && p[off + |s|] == 0
  }

  /** Only bytes in [lo, hi) differ. */
  ghost predicate SameOutside(p: Bytes, p': Bytes, lo: int, hi: int) {
    |p'| == |p| && forall k {:trigger p'[k]} :: 0 <= k < |p| && !(lo <= k < hi) ==> p'[k] == p[k]
  }

  lemma WordKept(p: Bytes, p': Bytes, lo: int, hi: int, off: int)
    requires SameOutside(p, p', lo, hi) && 0 <= off <= |p| - 4 && (off + 4 <= lo || hi <= off)
    ensures Word(p', off) == Word(p, off)
  {
  }

  lemma StringKept(p: Bytes, p': Bytes, lo: int, hi: int, off: int, s: Bytes)
    requires SameOutside(p, p', lo, hi) && StringAt(p, off, s) && (off + |s| + 1 <= lo || hi <= off)
    ensures StringAt(p', off, s)
  {
    assert p'[off..off + |s|] == p[off..off + |s|];
  }

  // ----- writing -----

  /** A little-endian 32-bit store. */
  method PutWord(page: array<int>, off: int, v: int)
    requires 0 <= off <= page.Length - 4 && 0 <= v < 0x1_0000_0000
    modifies page
    ensures Word(page[..], off) == v && SameOutside(old(page[..]), page[..], off, off + 4)
  {
    var bs := FourBytes(v);
    page[off], page[off + 1], page[off + 2], page[off + 3] := bs[0], bs[1], bs[2], bs[3];
  }

  /** strcpy */
  method PutString(page: array<int>, off: int, s: Bytes)
    requires 0 <= off && off + |s| < page.Length
    modifies page
    ensures StringAt(page[..], off, s) && SameOutside(old(page[..]), page[..], off, off + |s| + 1)
  {
    var k := 0;
    while k < |s|
      invariant 0 <= k <= |s|
      invariant forall j :: 0 <= j < k ==> page[off + j] == s[j]
      invariant forall j :: 0 <= j < page.Length && !(off <= j < off + k) ==> page[j] == old(page[j])
    {
      page[off + k] := s[k];
      k := k + 1;
    }
    page[off + k] := 0;
    assert page[off..off + |s|] == s;
  }

  /** Argument `j` is in place: its string, and a child pointer to it in the array. */
  ghost predicate Entry(p: Bytes, argv: seq<Bytes>, j: int) {
    && |p| == PGSIZE && Fits(argv) && 0 <= j < |argv| && ArgvOff(argv) + 4 * j + 4 <= PGSIZE
    && Word(p, ArgvOff(argv) + 4 * j) == ToChild(StringOff(argv, j))
    && StringAt(p, StringOff(argv, j), argv[j])
  }

  /** Placing argument `i` leaves the ones before it alone. */
  lemma EntryKept(p: Bytes, p1: Bytes, p2: Bytes, argv: seq<Bytes>, i: int, j: int)
    requires Entry(p, argv, j) && 0 <= j < i < |argv|
    requires SameOutside(p, p1, ArgvOff(argv) + 4 * i, ArgvOff(argv) + 4 * i + 4)
    requires SameOutside(p1, p2, StringOff(argv, i), StringOff(argv, i) + |argv[i]| + 1)
    ensures Entry(p2, argv, j)
  {
    var a := ArgvOff(argv);
    StringsInPage(argv, i);
    StringsInPage(argv, j);
    StringsOrdered(argv, j + 1, i);
    WordKept(p, p1, a + 4 * i, a + 4 * i + 4, a + 4 * j);
    WordKept(p1, p2, StringOff(argv, i), StringOff(argv, i) + |argv[i]| + 1, a + 4 * j);
    StringKept(p, p1, a + 4 * i, a + 4 * i + 4, StringOff(argv, j), argv[j]);
    StringKept(p1, p2, StringOff(argv, i), StringOff(argv, i) + |argv[i]| + 1, StringOff(argv, j), argv[j]);
  }

  lemma {:induction false} StringsOrdered(argv: seq<Bytes>, i: int, j: int)
    requires 0 <= i <= j <= |argv|
    ensures StringOff(argv, i) <= StringOff(argv, j)
    decreases j - i
  {
    if i < j {
      StringsOrdered(argv, i, j - 1);
      NextString(argv, j - 1);
    }
  }

  /** The first loop of init_stack. */
  method Measure(argv: seq<Bytes>) returns (size: int)
    ensures size == Size(argv)
  {
    size := 0;
    var argc := 0;
    while argc < |argv|
      invariant 0 <= argc <= |argv| && size == Size(argv[..argc])
    {
      assert argv[..argc + 1][..argc] == argv[..argc];
      size := size + |argv[argc]| + 1;
      argc := argc + 1;
    }
    assert argv[..argc] == argv;
  }

  /** One round of the second loop; `store` is string_store less UTEMP. */
  method PutArg(page: array<int>, argv: seq<Bytes>, i: int, store: int) returns (store': int)
    requires page.Length == PGSIZE && Fits(argv) && 0 <= i < |argv| && store == StringOff(argv, i)
    requires forall j :: 0 <= j < i ==> Entry(page[..], argv, j)
    modifies page
    ensures store' == StringOff(argv, i + 1)
    ensures forall j :: 0 <= j <= i ==> Entry(page[..], argv, j)
  {
    StringsInPage(argv, i);
    ghost var p := page[..];
    PutWord(page, ArgvOff(argv) + 4 * i, ToChild(store));
    ghost var p1 := page[..];
    PutString(page, store, argv[i]);
    store' := store + |argv[i]| + 1;
    WordKept(p1, page[..], store, store', ArgvOff(argv) + 4 * i);
    forall j | 0 <= j < i ensures Entry(page[..], argv, j) { EntryKept(p, p1, page[..], argv, i, j); }
  }

  /** Writing below the pointer array, or its null word, leaves every argument alone. */
  lemma EntryStays(p: Bytes, p': Bytes, lo: int, argv: seq<Bytes>, j: int)
    requires Entry(p, argv, j) && SameOutside(p, p', lo, lo + 4)
    requires lo + 4 <= ArgvOff(argv) || lo == ArgvOff(argv) + 4 * |argv|
    ensures Entry(p', argv, j)
  {
    StringsInPage(argv, j);
    WordKept(p, p', lo, lo + 4, ArgvOff(argv) + 4 * j);
    StringKept(p, p', lo, lo + 4, StringOff(argv, j), argv[j]);
  }

  /** The finished page. */
  ghost predicate Laid(p: Bytes, argv: seq<Bytes>) {
    && |p| == PGSIZE && Fits(argv) && ArgvOff(argv) + 4 * |argv| + 4 <= PGSIZE
    && (forall j :: 0 <= j < |argv| ==> Entry(p, argv, j))
    && Word(p, ArgvOff(argv) + 4 * |argv|) == 0
    && Word(p, ArgvOff(argv) - 4) == ToChild(ArgvOff(argv))
    && Word(p, ArgvOff(argv) - 8) == |argv|
  }

  datatype Result = NoMem | Esp(esp: int)

  /** The three words that are no argument: the null word, the argv pointer and argc. */
  method PutHeader(page: array<int>, argv: seq<Bytes>)
    requires page.Length == PGSIZE && Fits(argv)
    requires forall j :: 0 <= j < |argv| ==> Entry(page[..], argv, j)
    modifies page
    ensures Laid(page[..], argv)
  {
    var a := ArgvOff(argv);
    ghost var p := page[..];
    PutWord(page, a + 4 * |argv|, 0);
    ghost var p1 := page[..];
    PutWord(page, a - 4, ToChild(a));
    ghost var p2 := page[..];
    PutWord(page, a - 8, |argv|);
    forall j | 0 <= j < |argv| ensures Entry(page[..], argv, j) {
      EntryStays(p, p1, a + 4 * |argv|, argv, j);
      EntryStays(p1, p2, a - 4, argv, j);
      EntryStays(p2, page[..], a - 8, argv, j);
    }
    WordKept(p1, p2, a - 4, a, a + 4 * |argv|);
    WordKept(p2, page[..], a - 8, a - 4, a + 4 * |argv|);
    WordKept(p2, page[..], a - 8, a - 4, a - 4);
  }

  /**
    init_stack: refused exactly when strings, pointers and the two words do not fit the page, else
    the page is laid out and the stack pointer of the child points to argc. The bound on the sizes
    keeps the address arithmetic from wrapping.
  */
  method InitStack(page: array<int>, argv: seq<Bytes>) returns (r: Result)
    requires page.Length == PGSIZE && IsArgv(argv) && Size(argv) + 4 * |argv| + 16 <= UTEMP + PGSIZE
    modifies page
    ensures r.NoMem? <==> !Fits(argv)
    ensures r.NoMem? ==> page[..] == old(page[..])
    ensures r.Esp? ==> r.esp == ToChild(ArgvOff(argv) - 8) && Laid(page[..], argv)
    ensures r.Esp? ==> Received(page[..], r.esp) == Args(|argv|, argv, 0)
  {
    var size := Measure(argv);
    var stringStore := UTEMP + PGSIZE - size;
    var argvStore := RoundDown4(stringStore) - 4 * (|argv| + 1);
    assert argvStore == UTEMP + ArgvOff(argv);
    if argvStore - 8 < UTEMP { return NoMem; }
    var i, store := 0, stringStore - UTEMP;
    assert argv[..0] == [];
    while i < |argv|
      invariant 0 <= i <= |argv| && store == StringOff(argv, i)
      invariant forall j :: 0 <= j < i ==> Entry(page[..], argv, j)
    {
      store := PutArg(page, argv, i, store);
      i := i + 1;
    }
    assert argv[..i] == argv;
    assert store == PGSIZE;
    PutHeader(page, argv);
    RoundTrip(page[..], argv);
    return Esp(ToChild(argvStore - 8 - UTEMP));
  }

  // ----- reading it back in the child -----

  /** A word at a child address; -1 if it is not in the page. */
  function ChildWord(p: Bytes, va: int): int {
    var off := va - (USTACKTOP - PGSIZE);
    if 0 <= off <= |p| - 4 then Word(p, off) else -1
  }

  /** The bytes from `off` up to the first zero. */
  function CString(p: Bytes, off: int): Bytes
    decreases |p| - off
  {
    if 0 <= off < |p| && p[off] != 0 then [p[off]] + CString(p, off + 1) else []
  }

  /** What umain gets: argc, the strings behind argv, and the word after the last pointer. */
  datatype Args = Args(argc: int, argv: seq<Bytes>, last: int)

  function Received(p: Bytes, esp: int): Args {
    var argc, ptr := ChildWord(p, esp), ChildWord(p, esp + 4);
    var n := if argc < 0 then 0 else argc;
    Args(argc, seq(n, i => CString(p, ChildWord(p, ptr + 4 * i) - (USTACKTOP - PGSIZE))), ChildWord(p, ptr + 4 * argc))
  }

  lemma {:induction false} CStringIs(p: Bytes, off: int, s: Bytes)
    requires StringAt(p, off, s) && IsString(s)
    ensures CString(p, off) == s
    decreases |s|
  {
    if s != [] {
      assert p[off] == p[off..off + |s|][0] == s[0];
      assert p[off + 1..off + 1 + |s[1..]|] == p[off..off + |s|][1..];
      CStringIs(p, off + 1, s[1..]);
    }
  }

  /** Round trip: the child reads argc, every string unchanged, and a null pointer after the last. */
  lemma RoundTrip(p: Bytes, argv: seq<Bytes>)
    requires Laid(p, argv) && IsArgv(argv)
    ensures Received(p, ToChild(ArgvOff(argv) - 8)) == Args(|argv|, argv, 0)
  {
    var esp, a := ToChild(ArgvOff(argv) - 8), ArgvOff(argv);
    assert ChildWord(p, esp) == |argv| && ChildWord(p, esp + 4) == ToChild(a);
    assert ChildWord(p, ToChild(a) + 4 * |argv|) == 0;
    var got := Received(p, esp).argv;
    assert |got| == |argv|;
    forall i | 0 <= i < |argv| ensures got[i] == argv[i] {
      assert Entry(p, argv, i);
      CStringIs(p, StringOff(argv, i), argv[i]);
    }
  }

  /** The regions of the page follow each other without overlap, and the words are aligned. */
  lemma RegionsApart(argv: seq<Bytes>, i: int, j: int)
    requires Fits(argv) && 0 <= i < j < |argv|
    ensures 0 <= ArgvOff(argv) - 8 && ArgvOff(argv) % 4 == 0
    ensures ArgvOff(argv) + 4 * (|argv| + 1) <= StringOff(argv, i)
    ensures StringOff(argv, i) + |argv[i]| + 1 <= StringOff(argv, j)
    ensures StringOff(argv, j) + |argv[j]| + 1 <= StringOff(argv, |argv|) == PGSIZE
  {
    StringsInPage(argv, i);
    StringsInPage(argv, j);
    StringsOrdered(argv, i + 1, j);
  }

  function RoundUp4(n: int): int {
    if n % 4 == 0 then n else n + 4 - n % 4
  }

  lemma Rounding(n: int, d: int, u: int)
    requires d == RoundDown4(PGSIZE - n) && u == RoundUp4(n)
    ensures d == PGSIZE - u
  {
    var q, r := n / 4, n % 4;
    assert PGSIZE - n == 4 * (PGSIZE / 4 - q) - r;
  }

  lemma Slack(d: int, u: int, c: int)
    requires d == PGSIZE - u
    ensures d - 4 * (c + 1) - 8 >= 0 <==> u + 4 * c + 12 <= PGSIZE
  {
  }

  /** When it fits: strings rounded up to words, a pointer each, and three words more. */
  lemma FitsWhen(argv: seq<Bytes>)
    ensures Fits(argv) <==> RoundUp4(Size(argv)) + 4 * |argv| + 12 <= PGSIZE
  {
    Rounding(Size(argv), RoundDown4(PGSIZE - Size(argv)), RoundUp4(Size(argv)));
    Slack(RoundDown4(PGSIZE - Size(argv)), RoundUp4(Size(argv)), |argv|);
  }
}
