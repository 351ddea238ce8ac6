/**
 * Remote addresses: resolving a connection's address from its request,
 * making it unique among the live connections with a ` (n)` suffix, and
 * packing a dotted-quad IPv4 address into the u32 the roster carries.
 */
module Address {
  import opened Js

  const TWO_31: int := 0x8000_0000
  const TWO_32: int := 0x1_0000_0000

  // ---------------------------------------------------------------------
  // getRemoteAddress

  /**
   * The first comma-separated element, trimmed, of the `x-forwarded-for`
   * header when it is present and non-empty (an empty string is falsy),
   * otherwise of the transport's peer address.
   */
  function RemoteAddress(forwardedFor: Option<string>, peer: string): (address: string)
    ensures ',' !in address
    ensures address == [] || (!IsWhiteSpace(address[0]) && !IsWhiteSpace(address[|address| - 1]))
  {
    var source := if forwardedFor.Some? && forwardedFor.value != "" then forwardedFor.value else peer;
    var first := Split(source, ',')[0];
    TrimKeeps(first, ',');
    TrimIsInfix(first);
    Trim(first)
  }

  /**
   * A proxy chain `first, rest` resolves to the first hop, trimmed; the
   * result holds no comma and no surrounding white space.
   */
  lemma RemoteAddressOfChain(first: string, rest: string, peer: string)
    requires ',' !in first
    ensures RemoteAddress(Some(first + [','] + rest), peer) == Trim(first)
    ensures ',' !in Trim(first)
  {
    SplitCons(first, ',', rest);
    TrimKeeps(first, ',');
  }

  /**
   * Every input: when the source the address is read from (the non-empty
   * header, else the peer) is a comma-free `first` followed by nothing or
   * by a comma, the result is `first`, trimmed. A single hop and a peer
   * that needs trimming are the case `tail == []`.
   */
  lemma FirstHop(first: string, tail: string, forwardedFor: Option<string>, peer: string)
    requires ',' !in first && (tail == [] || tail[0] == ',')
    requires (if forwardedFor.Some? && forwardedFor.value != "" then forwardedFor.value else peer) == first + tail
    ensures RemoteAddress(forwardedFor, peer) == Trim(first)
  {
    if tail == [] {
      assert first + tail == first;
      SplitNone(first, ',');
    } else {
      assert first + tail == first + [','] + tail[1..];
      SplitCons(first, ',', tail[1..]);
    }
  }

  /** Every string has exactly one such decomposition: the first hop is the text before the first comma. */
  lemma FirstHopExists(source: string)
    ensures exists i :: 0 <= i <= |source| && ',' !in source[..i] && (i == |source| || source[i] == ',')
  {
    var i := 0;
    while i < |source| && source[i] != ','
      invariant 0 <= i <= |source| && ',' !in source[..i]
    {
      assert source[..i + 1] == source[..i] + [source[i]];
      i := i + 1;
    }
    assert ',' !in source[..i] && (i == |source| || source[i] == ',');
  }

  /** `trim` removes characters and adds none. */
  lemma TrimKeeps(s: string, x: char)
    requires x !in s
    ensures x !in Trim(s)
  {
    TrimIsInfix(s);
  }

  /** Without the header, a plain peer address that needs no trimming is used as it is. */
  lemma RemoteAddressOfPeer(peer: string)
    requires ',' !in peer
    requires peer == [] || (!IsWhiteSpace(peer[0]) && !IsWhiteSpace(peer[|peer| - 1]))
    ensures RemoteAddress(None, peer) == peer
    ensures RemoteAddress(Some(""), peer) == peer
  {
    TrimTrimmed(peer);
  }

  // ---------------------------------------------------------------------
  // de-duplication: `${getRemoteAddress(request)} (${count})`

  /** The `count`-th candidate address: the base itself, then `base (2)`, `base (3)`, ... */
  function Candidate(base: string, count: nat): string {
    if count <= 1 then base else base + Suffix(count)
  }

  /** Different counts give different candidates. */
  lemma CandidateInjective(base: string, i: nat, j: nat)
    requires 1 <= i && 1 <= j
    requires Candidate(base, i) == Candidate(base, j)
    ensures i == j
  {
    if i >= 2 && j >= 2 {
      var a := Candidate(base, i);
      var b := Candidate(base, j);
      assert a == base + " (" + DecimalString(i) + ")";
      assert b == base + " (" + DecimalString(j) + ")";
      assert a[|base| + 2..|a| - 1] == DecimalString(i);
      assert b[|base| + 2..|b| - 1] == DecimalString(j);
      DecimalInjective(i, j);
    }
  }

  /** The first `n` candidates. */
  ghost function Candidates(base: string, n: nat): set<string> {
    set j | 1 <= j <= n :: Candidate(base, j)
  }

  lemma {:induction false} CandidatesCount(base: string, n: nat)
    ensures |Candidates(base, n)| == n
  {
    if n > 0 {
      CandidatesCount(base, n - 1);
      assert Candidates(base, n) == Candidates(base, n - 1) + {Candidate(base, n)};
      if Candidate(base, n) in Candidates(base, n - 1) {
        var j :| 1 <= j <= n - 1 && Candidate(base, j) == Candidate(base, n);
        CandidateInjective(base, j, n);
      }
    } else {
      assert Candidates(base, n) == {};
    }
  }

  /**
   * The de-duplication loop of admission: starting from the base address,
   * try `base (2)`, `base (3)`, ... until one is not among `taken`. The
   * result is the first candidate that is free.
   */
  method Dedup(base: string, taken: seq<string>) returns (address: string, count: nat)
    ensures count >= 1 && address == Candidate(base, count)
    ensures address !in taken
    ensures forall j :: 1 <= j < count ==> Candidate(base, j) in taken
    ensures count <= |taken| + 1
    ensures Deduplicated(address, base, taken)
  {
    ghost var seen := set a | a in taken;
    assert |seen| <= |taken| by { SetOfSeqSize(taken); }
    count := 1;
    address := base;
    while address in taken
      invariant count >= 1 && address == Candidate(base, count)
      invariant forall j :: 1 <= j < count ==> Candidate(base, j) in taken
      invariant count <= |seen| + 1
      decreases |seen| + 1 - count
    {
      CandidatesCount(base, count);
      assert Candidates(base, count) <= seen;
      SubsetSize(Candidates(base, count), seen);
      count := count + 1;
      address := base + " (" + DecimalString(count) + ")";
    }
    DedupFound(base, taken, address, count);
  }

  lemma SubsetSize<T>(a: set<T>, b: set<T>)
    requires a <= b
    ensures |a| <= |b|
  {
    assert b == a + (b - a);
  }

  lemma {:induction false} SetOfSeqSize<T>(s: seq<T>)
    ensures |set x | x in s| <= |s|
  {
    if |s| > 0 {
      SetOfSeqSize(s[1..]);
      assert (set x | x in s) == (set x | x in s[1..]) + {s[0]};
    } else {
      assert (set x | x in s) == {};
    }
  }

  /** `count` is where the de-duplication loop stops: the first candidate not among `taken`. */
  ghost predicate FirstFree(base: string, taken: seq<string>, count: nat) {
    count >= 1 && Candidate(base, count) !in taken
    && forall j :: 1 <= j < count ==> Candidate(base, j) in taken
  }

  /** `address` is what admission stores for `base` while `taken` are the live addresses. */
  ghost predicate Deduplicated(address: string, base: string, taken: seq<string>) {
    exists count: nat :: FirstFree(base, taken, count) && address == Candidate(base, count)
  }

  /** At most one address is the de-duplication of a base against given addresses. */
  lemma DeduplicatedUnique(address1: string, address2: string, base: string, taken: seq<string>)
    requires Deduplicated(address1, base, taken) && Deduplicated(address2, base, taken)
    ensures address1 == address2
  {
    var count1: nat :| FirstFree(base, taken, count1) && address1 == Candidate(base, count1);
    var count2: nat :| FirstFree(base, taken, count2) && address2 == Candidate(base, count2);
  }

  /**
   * The de-duplicated address is free; it is the base itself when the base
   * is free, and otherwise `base (k)` for the smallest `k >= 2` that is free.
   */
  lemma DeduplicatedShape(address: string, base: string, taken: seq<string>)
    requires Deduplicated(address, base, taken)
    ensures address !in taken
    ensures base !in taken ==> address == base
    ensures base in taken ==>
      exists k: nat :: k >= 2 && address == base + Suffix(k) && (forall j: nat :: 2 <= j < k ==> base + Suffix(j) in taken)
  {
    var count: nat :| FirstFree(base, taken, count) && address == Candidate(base, count);
    if count > 1 {
      assert Candidate(base, 1) in taken;
    }
    if base in taken {
      assert count >= 2;
      forall j: nat | 2 <= j < count
        ensures base + Suffix(j) in taken
      {
        assert Candidate(base, j) in taken;
      }
    }
  }

  /** Whatever it settles on, the de-duplication loop's result meets `Deduplicated`. */
  lemma DedupFound(base: string, taken: seq<string>, address: string, count: nat)
    requires count >= 1 && address == Candidate(base, count) && address !in taken
    requires forall j :: 1 <= j < count ==> Candidate(base, j) in taken
    ensures Deduplicated(address, base, taken)
  {
    assert FirstFree(base, taken, count);
  }

  // ---------------------------------------------------------------------
  // ip2long

  /** A JavaScript number as it arises in `ip2long`: NaN or an integer. */
  datatype Number = NaN | Int(v: int)

  /** ECMAScript ToInt32: NaN is 0, integers wrap into [-2^31, 2^31). */
  function ToInt32(n: Number): (r: int)
    ensures -TWO_31 <= r < TWO_31
    ensures n.NaN? ==> r == 0
  {
    match n
    case NaN => 0
    case Int(v) =>
      var m := v % TWO_32;
      if m >= TWO_31 then m - TWO_32 else m
  }

  /** ECMAScript ToUint32 (`x >>> 0`): NaN is 0, integers wrap into [0, 2^32). */
  function ToUint32(n: Number): (r: nat)
    ensures r < TWO_32
    ensures n.NaN? ==> r == 0
  {
    match n
    case NaN => 0
    case Int(v) => v % TWO_32
  }

  /**
   * Both conversions keep an integer's residue modulo 2^32, and they agree
   * on every integer once read back as unsigned.
   */
  lemma WrapCongruent(v: int)
    ensures (v - ToInt32(Int(v))) % TWO_32 == 0
    ensures (v - ToUint32(Int(v))) % TWO_32 == 0
    ensures ToUint32(Int(ToInt32(Int(v)))) == ToUint32(Int(v))
  {
  }

  /** One `forEach` step: `ipl <<= 8; ipl += parseInt(octet, 10);`. */
  function Step(ipl: Number, octet: string): Number {
    var shifted := ToInt32(Int(ToInt32(ipl) * 256));
    match ParseInt(octet)
    case None => NaN
    case Some(p) => Int(shifted + p)
  }

  /** The fold over the `.`-separated pieces, left to right. */
  function Fold(octets: seq<string>, ipl: Number): Number {
    if |octets| == 0 then ipl else Fold(octets[1..], Step(ipl, octets[0]))
  }

  /** `ip2long`: always an unsigned 32-bit value. */
  function Ip2Long(ip: string): (r: nat)
    ensures r < TWO_32
  {
    ToUint32(Fold(Split(ip, '.'), Int(0)))
  }

  /** `ip2long(ip)` as the source computes it, one octet at a time. */
  method Pack(ip: string) returns (packed: nat)
    ensures packed == Ip2Long(ip)
  {
    var octets := Split(ip, '.');
    var ipl: Number := Int(0);
    for i := 0 to |octets|
      invariant Fold(octets[i..], ipl) == Fold(octets, Int(0))
    {
      FoldStep(octets, i, ipl);
      var shifted := ToInt32(Int(ToInt32(ipl) * 256));
      match ParseInt(octets[i])
      case None => ipl := NaN;
      case Some(p) => ipl := Int(shifted + p);
    }
    assert octets[|octets|..] == [];
    packed := ToUint32(ipl);
  }

  /** The fold from octet `i` on is one step followed by the fold from octet `i + 1` on. */
  lemma FoldStep(octets: seq<string>, i: nat, ipl: Number)
    requires i < |octets|
    ensures Fold(octets[i..], ipl) == Fold(octets[i + 1..], Step(ipl, octets[i]))
  {
    assert octets[i..][1..] == octets[i + 1..];
  }

  /** The canonical dotted-quad text of four octets. */
  function Quad(a: nat, b: nat, c: nat, d: nat): string {
    DecimalString(a) + "." + DecimalString(b) + "." + DecimalString(c) + "." + DecimalString(d)
  }

  lemma NoDotInDecimal(n: nat)
    ensures '.' !in DecimalString(n)
  {
    var s := DecimalString(n);
    forall k | 0 <= k < |s| ensures s[k] != '.' {
      assert IsDigit(s[k]);
    }
  }

  /** A quad followed by `tail` splits into its four octets, the last carrying the tail. */
  lemma SplitQuad(a: nat, b: nat, c: nat, d: nat, tail: string)
    requires '.' !in tail
    ensures Split(Quad(a, b, c, d) + tail, '.')
         == [DecimalString(a), DecimalString(b), DecimalString(c), DecimalString(d) + tail]
  {
    NoDotInDecimal(a);
    NoDotInDecimal(b);
    NoDotInDecimal(c);
    NoDotInDecimal(d);
    NoDotInConcat(DecimalString(d), tail);
    SplitFour(DecimalString(a), DecimalString(b), DecimalString(c), DecimalString(d) + tail);
    QuadAssoc(DecimalString(a), DecimalString(b), DecimalString(c), DecimalString(d), tail);
  }

  lemma SplitTwo(dc: string, last: string)
    requires '.' !in dc && '.' !in last
    ensures Split(dc + ['.'] + last, '.') == [dc, last]
  {
    SplitNone(last, '.');
    SplitCons(dc, '.', last);
  }

  lemma SplitThree(db: string, dc: string, last: string)
    requires '.' !in db && '.' !in dc && '.' !in last
    ensures Split(db + ['.'] + (dc + ['.'] + last), '.') == [db, dc, last]
  {
    var rest := dc + ['.'] + last;
    SplitTwo(dc, last);
    SplitCons(db, '.', rest);
    Cons3(db, dc, last);
  }

  lemma SplitFour(da: string, db: string, dc: string, last: string)
    requires '.' !in da && '.' !in db && '.' !in dc && '.' !in last
    ensures Split(da + ['.'] + (db + ['.'] + (dc + ['.'] + last)), '.') == [da, db, dc, last]
  {
    var rest := db + ['.'] + (dc + ['.'] + last);
    SplitThree(db, dc, last);
    SplitCons(da, '.', rest);
    Cons4(da, db, dc, last);
  }

  lemma Cons3<T>(a: T, b: T, c: T)
    ensures [a] + [b, c] == [a, b, c]
  {
  }

  lemma Cons4<T>(a: T, b: T, c: T, d: T)
    ensures [a] + [b, c, d] == [a, b, c, d]
  {
  }

  lemma NoDotInConcat(x: string, y: string)
    requires '.' !in x && '.' !in y
    ensures '.' !in x + y
  {
  }

  lemma QuadAssoc(da: string, db: string, dc: string, dd: string, tail: string)
    ensures da + "." + db + "." + dc + "." + dd + tail
         == da + ['.'] + (db + ['.'] + (dc + ['.'] + (dd + tail)))
  {
  }

  /** Shifting a value below 2^23 left by 8 does not wrap. */
  lemma ShiftNoWrap(x: int)
    requires 0 <= x < 0x80_0000
    ensures ToInt32(Int(ToInt32(Int(x)) * 256)) == x * 256
  {
    assert ToInt32(Int(x)) == x;
  }

  /** Shifting a 24-bit value left by 8 may wrap to a negative int32; `>>> 0` undoes it. */
  lemma ShiftWrapUndone(x: int, d: int)
    requires 0 <= x < 0x100_0000 && 0 <= d < 256
    ensures ToUint32(Int(ToInt32(Int(ToInt32(Int(x)) * 256)) + d)) == x * 256 + d
  {
    assert ToInt32(Int(x)) == x;
    var y := x * 256;
    assert 0 <= y < TWO_32;
    assert y % TWO_32 == y;
    if y >= TWO_31 {
      assert ToInt32(Int(y)) == y - TWO_32;
      assert (y - TWO_32 + d) % TWO_32 == y + d;
    } else {
      assert ToInt32(Int(y)) == y;
    }
  }

  /** One fold step on an octet that parses to `p`. */
  lemma StepParsed(x: int, octet: string, p: int)
    requires ParseInt(octet) == Some(p)
    ensures Step(Int(x), octet) == Int(ToInt32(Int(ToInt32(Int(x)) * 256)) + p)
  {
  }

  /** The fold over four octet texts whose numbers are below 256. */
  lemma FoldOctets(a: nat, b: nat, c: nat, d: nat, da: string, db: string, dc: string, dd: string)
    requires a < 256 && b < 256 && c < 256 && d < 256
    requires ParseInt(da) == Some(a) && ParseInt(db) == Some(b)
    requires ParseInt(dc) == Some(c) && ParseInt(dd) == Some(d)
    ensures ToUint32(Fold([da, db, dc, dd], Int(0))) == a * 0x100_0000 + b * 0x1_0000 + c * 0x100 + d
  {
    var octets := [da, db, dc, dd];
    StepParsed(0, da, a);
    ShiftNoWrap(0);
    var x1 := Int(a);
    StepParsed(a, db, b);
    ShiftNoWrap(a);
    var x2 := Int(a * 256 + b);
    StepParsed(a * 256 + b, dc, c);
    ShiftNoWrap(a * 256 + b);
    var x3v := (a * 256 + b) * 256 + c;
    var x3 := Int(x3v);
    StepParsed(x3v, dd, d);
    var x4 := Step(x3, dd);
    assert Fold(octets, Int(0)) == Fold(octets[1..], x1);
    assert Fold(octets[1..], x1) == Fold(octets[2..], x2);
    assert Fold(octets[2..], x2) == Fold(octets[3..], x3);
    assert Fold(octets[3..], x3) == x4;
    ShiftWrapUndone(x3v, d);
  }

  /**
   * `ip2long` of a dotted quad followed by text that holds no dot and does
   * not start with a digit: `parseInt` stops where the last octet ends.
   */
  lemma Ip2LongQuadTail(a: nat, b: nat, c: nat, d: nat, tail: string)
    requires a < 256 && b < 256 && c < 256 && d < 256
    requires '.' !in tail && (tail == [] || !IsDigit(tail[0]))
    ensures Ip2Long(Quad(a, b, c, d) + tail) == a * 0x100_0000 + b * 0x1_0000 + c * 0x100 + d
  {
    SplitQuad(a, b, c, d, tail);
    ParseDecimal(a, []);
    ParseDecimal(b, []);
    ParseDecimal(c, []);
    ParseDecimal(d, tail);
    assert DecimalString(a) + [] == DecimalString(a);
    assert DecimalString(b) + [] == DecimalString(b);
    assert DecimalString(c) + [] == DecimalString(c);
    FoldOctets(a, b, c, d, DecimalString(a), DecimalString(b), DecimalString(c), DecimalString(d) + tail);
  }

  /** `ip2long` of a dotted quad packs the octets most significant first. */
  lemma Ip2LongQuad(a: nat, b: nat, c: nat, d: nat)
    requires a < 256 && b < 256 && c < 256 && d < 256
    ensures Ip2Long(Quad(a, b, c, d)) == a * 0x100_0000 + b * 0x1_0000 + c * 0x100 + d
  {
    Ip2LongQuadTail(a, b, c, d, []);
    assert Quad(a, b, c, d) + [] == Quad(a, b, c, d);
  }

  /**
   * A de-duplicated address `a.b.c.d (k)` packs to the same value as
   * `a.b.c.d`.
   */
  lemma Ip2LongIgnoresSuffix(a: nat, b: nat, c: nat, d: nat, count: nat)
    requires a < 256 && b < 256 && c < 256 && d < 256
    ensures Ip2Long(Candidate(Quad(a, b, c, d), count)) == Ip2Long(Quad(a, b, c, d))
  {
    Ip2LongQuad(a, b, c, d);
    if count > 1 {
      var q := Quad(a, b, c, d);
      var tail := Suffix(count);
      SuffixShape(count);
      assert Candidate(q, count) == q + tail;
      Ip2LongQuadTail(a, b, c, d, tail);
    }
  }

  /** The ` (n)` suffix of a de-duplicated address. */
  function Suffix(count: nat): string {
    " (" + DecimalString(count) + ")"
  }

  lemma SuffixShape(count: nat)
    ensures '.' !in Suffix(count) && !IsDigit(Suffix(count)[0])
  {
    NoDotInDecimal(count);
  }
}
