/**
 * ItemEntry of the loadouts package, in its Java (ItemEntry.java) and Kotlin
 * (ItemEntry.kt) versions, which count items the same way and differ in their
 * builders.
 *
 * An entry holds the pattern string its builder made, a quantity range, and
 * the stackable and optional flags.  Regular-expression matching is library
 * code, so it is the parameter `matches(pattern, name)`; `Pattern.quote` and
 * `Regex.escape` are the parameter `quote`.
 */
module ItemEntries {

  datatype Option<T> = None | Some(value: T)

  datatype Item = Item(name: string, stackSize: int)

  datatype Entry = Entry(pattern: string, minQuantity: int, maxQuantity: int, stackable: bool, optional: bool)

  type Matcher = (string, string) -> bool

  const IntMax := 0x7fff_ffff

  predicate Matches(e: Entry, item: Item, matches: Matcher) {
    matches(e.pattern, item.name)
  }

  /** What one item adds to the count: its stack size, or 1, if it matches. */
  function Contribution(e: Entry, item: Item, matches: Matcher): int {
    if !Matches(e, item, matches) then 0 else if e.stackable then item.stackSize else 1
  }

  /** The count over all of `items`, with unbounded integers. */
  function Total(e: Entry, items: seq<Item>, matches: Matcher): int
    decreases |items|
  {
    if |items| == 0 then 0
    else Total(e, items[..|items| - 1], matches) + Contribution(e, items[|items| - 1], matches)
  }

  /** Some matching item leaves the running count above the maximum. */
  predicate Exceeds(e: Entry, items: seq<Item>, matches: Matcher)
    decreases |items|
  {
    |items| > 0 &&
    (Exceeds(e, items[..|items| - 1], matches) ||
     (Matches(e, items[|items| - 1], matches) && Total(e, items, matches) > e.maxQuantity))
  }

  predicate AnyMatch(e: Entry, items: seq<Item>, matches: Matcher) {
    exists i :: 0 <= i < |items| && Matches(e, items[i], matches)
  }

  /**
   * What `contained` answers: an optional entry always; otherwise the count
   * must never pass the maximum after a matching item, and must reach the
   * minimum at the end.
   */
  predicate ContainedSpec(e: Entry, items: seq<Item>, matches: Matcher) {
    e.optional || (!Exceeds(e, items, matches) && Total(e, items, matches) >= e.minQuantity)
  }

  /**
   * contained (ItemEntry.java:30-42, ItemEntry.kt:14-24), with the running
   * count kept unbounded; the 32-bit count the source keeps is
   * `ContainedInt32`.
   */
  method Contained(e: Entry, items: seq<Item>, matches: Matcher) returns (b: bool)
    ensures b == ContainedSpec(e, items, matches)
  {
    if e.optional {
      return true;
    }
    var quantity := 0;
    for i := 0 to |items|
      invariant quantity == Total(e, items[..i], matches)
      invariant !Exceeds(e, items[..i], matches)
    {
      assert items[..i + 1][..i] == items[..i];
      if !matches(e.pattern, items[i].name) {
        continue;
      }
      quantity := quantity + (if e.stackable then items[i].stackSize else 1);
      if quantity > e.maxQuantity {
        ExceedsGrows(e, items, i + 1, matches);
        return false;
      }
    }
    assert items[..|items|] == items;
    b := quantity >= e.minQuantity;
  }

  /** Once exceeded, a longer list of items exceeds as well. */
  lemma {:induction false} ExceedsGrows(e: Entry, items: seq<Item>, k: nat, matches: Matcher)
    requires k <= |items| && Exceeds(e, items[..k], matches)
    ensures Exceeds(e, items, matches)
    decreases |items| - k
  {
    if k < |items| {
      assert items[..k + 1][..k] == items[..k];
      ExceedsGrows(e, items, k + 1, matches);
    } else {
      assert items[..k] == items;
    }
  }

  /** Without a matching item nothing is counted and nothing is exceeded. */
  lemma {:induction false} NoMatchCountsNothing(e: Entry, items: seq<Item>, matches: Matcher)
    requires !AnyMatch(e, items, matches)
    ensures Total(e, items, matches) == 0 && !Exceeds(e, items, matches)
    decreases |items|
  {
    if |items| > 0 {
      var xs := items[..|items| - 1];
      assert !AnyMatch(e, xs, matches) by {
        forall i | 0 <= i < |xs| ensures !Matches(e, xs[i], matches) {
          assert xs[i] == items[i];
        }
      }
      NoMatchCountsNothing(e, xs, matches);
    }
  }

  /** The last check: a count above the maximum after some match was seen. */
  lemma {:induction false} FinalCheck(e: Entry, items: seq<Item>, matches: Matcher)
    ensures Exceeds(e, items, matches) || Total(e, items, matches) <= e.maxQuantity || !AnyMatch(e, items, matches)
    decreases |items|
  {
    if |items| > 0 {
      var xs := items[..|items| - 1];
      FinalCheck(e, xs, matches);
      if !Matches(e, items[|items| - 1], matches) && AnyMatch(e, items, matches) {
        var i :| 0 <= i < |items| && Matches(e, items[i], matches);
        assert xs[i] == items[i];
      }
    }
  }

  /** With stack sizes that are never negative the count only grows, so exceeding means ending above the maximum. */
  lemma {:induction false} ExceedsMeansOver(e: Entry, items: seq<Item>, matches: Matcher)
    requires forall i :: 0 <= i < |items| ==> items[i].stackSize >= 0
    requires Exceeds(e, items, matches)
    ensures Total(e, items, matches) > e.maxQuantity
    decreases |items|
  {
    var xs := items[..|items| - 1];
    if Exceeds(e, xs, matches) {
      ExceedsMeansOver(e, xs, matches);
    }
  }

  /**
   * With stack sizes that are never negative, a required entry is contained
   * exactly when the count is between the minimum and the maximum, except that
   * with no matching item at all the maximum is never checked.
   */
  lemma ContainedInRange(e: Entry, items: seq<Item>, matches: Matcher)
    requires forall i :: 0 <= i < |items| ==> items[i].stackSize >= 0
    ensures ContainedSpec(e, items, matches) <==>
      e.optional ||
      (e.minQuantity <= Total(e, items, matches) &&
       (Total(e, items, matches) <= e.maxQuantity || !AnyMatch(e, items, matches)))
  {
    FinalCheck(e, items, matches);
    if Exceeds(e, items, matches) {
      ExceedsMeansOver(e, items, matches);
    }
    if !AnyMatch(e, items, matches) {
      NoMatchCountsNothing(e, items, matches);
    }
  }

  /** A required entry whose minimum is positive and above its maximum is never contained. */
  lemma MinAboveMaxNeverContained(e: Entry, items: seq<Item>, matches: Matcher)
    requires !e.optional && e.minQuantity > 0 && e.minQuantity > e.maxQuantity
    ensures !ContainedSpec(e, items, matches)
  {
    FinalCheck(e, items, matches);
    if !AnyMatch(e, items, matches) {
      NoMatchCountsNothing(e, items, matches);
    }
  }

  /** Items that do not match change nothing. */
  lemma IgnoresOthers(e: Entry, items: seq<Item>, other: Item, matches: Matcher)
    requires !Matches(e, other, matches)
    ensures Total(e, items + [other], matches) == Total(e, items, matches)
    ensures Exceeds(e, items + [other], matches) == Exceeds(e, items, matches)
    ensures ContainedSpec(e, items + [other], matches) == ContainedSpec(e, items, matches)
  {
    assert (items + [other])[..|items|] == items;
  }

  // ---------------------------------------------------------------------
  // The count as the source keeps it, in a 32-bit int

  /** Two's-complement wrap-around of a Java or Kotlin `int`. */
  function Wrap32(x: int): (r: int)
    ensures -0x8000_0000 <= r <= IntMax
    ensures -0x8000_0000 <= x <= IntMax ==> r == x
  {
    (x + 0x8000_0000) % 0x1_0000_0000 - 0x8000_0000
  }

  /** The running count after each item, wrapping as `quantity += …` does; None once it has passed the maximum. */
  function Count32(e: Entry, items: seq<Item>, matches: Matcher): Option<int>
    decreases |items|
  {
    if |items| == 0 then Some(0)
    else
      var before := Count32(e, items[..|items| - 1], matches);
      var last := items[|items| - 1];
      if before.None? then None
      else if !Matches(e, last, matches) then before
      else
        var q := Wrap32(before.value + (if e.stackable then Wrap32(last.stackSize) else 1));
        if q > e.maxQuantity then None else Some(q)
  }

  /** contained exactly as written, with its 32-bit count. */
  predicate ContainedInt32(e: Entry, items: seq<Item>, matches: Matcher) {
    e.optional || (Count32(e, items, matches).Some? && Count32(e, items, matches).value >= e.minQuantity)
  }

  /**
   * The 32-bit count can wrap: with the Java builder's default maximum
   * (Integer.MAX_VALUE), two full stacks and a stack of 3 wrap the count to 1,
   * and `contained` answers true for a total far above the maximum.
   */
  lemma ContainedOverflows(p: string, n: string)
    ensures var e := Entry(p, 1, IntMax, true, false);
      var items := [Item(n, IntMax), Item(n, IntMax), Item(n, 3)];
      var all: Matcher := (a, b) => true;
      ContainedInt32(e, items, all) && !ContainedSpec(e, items, all) &&
      Total(e, items, all) == 2 * IntMax + 3
  {
    var e := Entry(p, 1, IntMax, true, false);
    var items := [Item(n, IntMax), Item(n, IntMax), Item(n, 3)];
    var all: Matcher := (a, b) => true;
    assert items[..2][..1] == items[..1] && items[..1][..0] == [];
    assert Count32(e, items[..1], all) == Some(IntMax);
    assert Count32(e, items[..2], all) == Some(-2);
    assert Count32(e, items, all) == Some(1);
    assert Total(e, items[..1], all) == IntMax;
    assert Total(e, items[..2], all) == 2 * IntMax;
    assert Exceeds(e, items, all);
  }

  /** As long as the true running count stays within an int, the 32-bit count agrees with it. */
  lemma {:induction false} Count32Agrees(e: Entry, items: seq<Item>, matches: Matcher)
    requires forall k :: 0 <= k <= |items| ==> -0x8000_0000 <= Total(e, items[..k], matches) <= IntMax
    requires forall i :: 0 <= i < |items| ==> -0x8000_0000 <= items[i].stackSize <= IntMax
    ensures Count32(e, items, matches) == (if Exceeds(e, items, matches) then None else Some(Total(e, items, matches)))
    decreases |items|
  {
    if |items| > 0 {
      var xs := items[..|items| - 1];
      forall k | 0 <= k <= |xs| ensures -0x8000_0000 <= Total(e, xs[..k], matches) <= IntMax {
        assert xs[..k] == items[..k];
      }
      assert items[..|items|] == items;
      Count32Agrees(e, xs, matches);
    }
  }

  // ---------------------------------------------------------------------
  // get

  /** get (ItemEntry.kt:26-33): the first matching item, or None for Item.Nil. */
  method Get(e: Entry, items: seq<Item>, matches: Matcher) returns (r: Option<Item>)
    ensures r.Some? ==> exists i :: 0 <= i < |items| && items[i] == r.value && Matches(e, r.value, matches) &&
                          forall j :: 0 <= j < i ==> !Matches(e, items[j], matches)
    ensures r.None? <==> !AnyMatch(e, items, matches)
  {
    for i := 0 to |items|
      invariant forall j :: 0 <= j < i ==> !Matches(e, items[j], matches)
    {
      if matches(e.pattern, items[i].name) {
        return Some(items[i]);
      }
    }
    return None;
  }

  // ---------------------------------------------------------------------
  // Pattern strings

  function DigitChar(d: nat): char
    requires d < 10
  {
    "0123456789"[d]
  }

  predicate IsDigits(s: string) {
    forall i :: 0 <= i < |s| ==> '0' <= s[i] <= '9'
  }

  /** Integer.toString / Int.toString of a value that is not negative. */
  function NatToString(n: nat): (s: string)
    ensures |s| > 0 && IsDigits(s)
    decreases n
  {
    if n < 10 then [DigitChar(n)] else NatToString(n / 10) + [DigitChar(n % 10)]
  }

  function ParseNat(s: string): nat
    requires IsDigits(s)
    decreases |s|
  {
    if |s| == 0 then 0 else ParseNat(s[..|s| - 1]) * 10 + (s[|s| - 1] as int - '0' as int)
  }

  /** Reading a written number back gives the number. */
  lemma {:induction false} NatToStringRoundTrip(n: nat)
    ensures ParseNat(NatToString(n)) == n
    decreases n
  {
    if n >= 10 {
      var s := NatToString(n);
      assert s[..|s| - 1] == NatToString(n / 10);
      NatToStringRoundTrip(n / 10);
    }
  }

  /** `joinToString(sep)` / `Collectors.joining(sep)`. */
  function Join(parts: seq<string>, sep: string): string
    decreases |parts|
  {
    if |parts| == 0 then ""
    else if |parts| == 1 then parts[0]
    else parts[0] + sep + Join(parts[1..], sep)
  }

  /** The pieces of `s` between occurrences of `c`. */
  function Split(s: string, c: char): (r: seq<string>)
    ensures |r| > 0
    decreases |s|
  {
    if |s| == 0 then [""]
    else
      var rest := Split(s[1..], c);
      if s[0] == c then [""] + rest else [[s[0]] + rest[0]] + rest[1..]
  }

  lemma {:induction false} SplitPlain(p: string, t: string, c: char)
    requires forall i :: 0 <= i < |p| ==> p[i] != c
    ensures Split(p + t, c) == [p + Split(t, c)[0]] + Split(t, c)[1..]
    decreases |p|
  {
    if |p| > 0 {
      assert (p + t)[1..] == p[1..] + t;
      SplitPlain(p[1..], t, c);
      assert [p[0]] + (p[1..] + Split(t, c)[0]) == p + Split(t, c)[0];
    } else {
      var r := Split(t, c);
      assert p + t == t && p + r[0] == r[0];
      assert [r[0]] + r[1..] == r;
    }
  }

  /** Splitting a join of pieces that do not contain the separator gives the pieces back. */
  lemma {:induction false} SplitJoin(parts: seq<string>, c: char)
    requires |parts| > 0
    requires forall k, i :: 0 <= k < |parts| && 0 <= i < |parts[k]| ==> parts[k][i] != c
    ensures Split(Join(parts, [c]), c) == parts
    decreases |parts|
  {
    if |parts| == 1 {
      SplitPlain(parts[0], "", c);
      assert parts[0] + "" == parts[0];
    } else {
      var rest := Join(parts[1..], [c]);
      SplitJoin(parts[1..], c);
      assert parts[0] + [c] + rest == parts[0] + ([c] + rest);
      SplitPlain(parts[0], [c] + rest, c);
      assert Join(parts, [c]) == parts[0] + ([c] + rest);
      assert ([c] + rest)[0] == c && ([c] + rest)[1..] == rest;
      assert Split([c] + rest, c) == [""] + parts[1..];
      assert parts[0] + "" == parts[0];
      assert [parts[0]] + parts[1..] == parts;
    }
  }

  /** The numbers lo..hi written out, as `IntStream.rangeClosed(lo, hi)` / `lo..hi`. */
  function Numbers(lo: nat, hi: int): (r: seq<string>)
    ensures |r| == (if hi < lo then 0 else hi - lo + 1)
    ensures forall i :: 0 <= i < |r| ==> r[i] == NatToString(lo + i)
    decreases hi - lo
  {
    if hi < lo then [] else [NatToString(lo)] + Numbers(lo + 1, hi)
  }

  /** numberAlternation: lo..hi joined by `|`. */
  function Alternation(lo: nat, hi: int): string {
    Join(Numbers(lo, hi), "|")
  }

  /** The alternation lists exactly the numbers lo..hi, each readable back. */
  lemma AlternationLists(lo: nat, hi: int)
    requires lo <= hi
    ensures var parts := Split(Alternation(lo, hi), '|');
      |parts| == hi - lo + 1 &&
      forall i :: 0 <= i < |parts| ==> IsDigits(parts[i]) && ParseNat(parts[i]) == lo + i
  {
    var ns := Numbers(lo, hi);
    assert forall k, i :: 0 <= k < |ns| && 0 <= i < |ns[k]| ==> ns[k][i] != '|' by {
      forall k, i | 0 <= k < |ns| && 0 <= i < |ns[k]| ensures ns[k][i] != '|' {
        assert IsDigits(ns[k]);
      }
    }
    SplitJoin(ns, '|');
    forall i | 0 <= i < |ns| ensures ParseNat(ns[i]) == lo + i {
      NatToStringRoundTrip(lo + i);
    }
  }

  /** `String.trim()`, with the language's notion of a blank character. */
  function Trim(s: string, blank: char -> bool): (r: string)
    ensures |r| <= |s|
    ensures |r| > 0 ==> !blank(r[0]) && !blank(r[|r| - 1])
    ensures (forall k :: 0 <= k < |s| ==> blank(s[k])) ==> r == []
    decreases |s|
  {
    if |s| == 0 then s
    else if blank(s[0]) then Trim(s[1..], blank)
    else if blank(s[|s| - 1]) then Trim(s[..|s| - 1], blank)
    else s
  }

  /** trim removes blank characters at both ends and nothing else: it keeps `s[i..j]`. */
  lemma {:induction false} TrimIsSlice(s: string, blank: char -> bool) returns (i: nat, j: nat)
    ensures i <= j <= |s| && Trim(s, blank) == s[i..j]
    ensures forall k :: 0 <= k < i ==> blank(s[k])
    ensures forall k :: j <= k < |s| ==> blank(s[k])
    decreases |s|, 1
  {
    if |s| == 0 {
      i, j := 0, 0;
    } else if blank(s[0]) {
      i, j := TrimFrontSlice(s, blank);
    } else if blank(s[|s| - 1]) {
      i, j := TrimBackSlice(s, blank);
    } else {
      i, j := 0, |s|;
    }
  }

  /** TrimIsSlice when the first character is blank: the slice of the rest, one place on. */
  lemma {:induction false} TrimFrontSlice(s: string, blank: char -> bool) returns (i: nat, j: nat)
    requires |s| > 0 && blank(s[0])
    ensures i <= j <= |s| && Trim(s, blank) == s[i..j]
    ensures forall k :: 0 <= k < i ==> blank(s[k])
    ensures forall k :: j <= k < |s| ==> blank(s[k])
    decreases |s|, 0
  {
    var t := s[1..];
    var i', j' := TrimIsSlice(t, blank);
    i, j := i' + 1, j' + 1;
    assert t[i'..j'] == s[i..j];
    forall k | 0 < k < i ensures blank(s[k]) {
      assert s[k] == t[k - 1];
    }
    forall k | j <= k < |s| ensures blank(s[k]) {
      assert s[k] == t[k - 1];
    }
  }

  /** TrimIsSlice when only the last character is blank: the slice of the rest. */
  lemma {:induction false} TrimBackSlice(s: string, blank: char -> bool) returns (i: nat, j: nat)
    requires |s| > 0 && !blank(s[0]) && blank(s[|s| - 1])
    ensures i <= j <= |s| && Trim(s, blank) == s[i..j]
    ensures forall k :: 0 <= k < i ==> blank(s[k])
    ensures forall k :: j <= k < |s| ==> blank(s[k])
    decreases |s|, 0
  {
    var t := s[..|s| - 1];
    i, j := TrimIsSlice(t, blank);
    assert t[i..j] == s[i..j];
    forall k | j <= k < |t| ensures blank(s[k]) {
      assert s[k] == t[k];
    }
  }

  /** Java's trim removes every character up to U+0020. */
  predicate JavaBlank(c: char) {
    c <= ' '
  }

  /** Kotlin's trim removes the characters `Char.isWhitespace` accepts. */
  predicate KotlinBlank(c: char) {
    var k := c as int;
    (9 <= k <= 13) || (28 <= k <= 32) || k == 0xA0 || k == 0x1680 ||
    (0x2000 <= k <= 0x200A) || k == 0x2028 || k == 0x2029 || k == 0x202F || k == 0x205F || k == 0x3000
  }

  /** The trimmed names that are not empty, in order. */
  function Kept(names: seq<string>, blank: char -> bool): (r: seq<string>)
    ensures |r| <= |names|
    ensures forall k :: 0 <= k < |r| ==> |r[k]| > 0
    decreases |names|
  {
    if |names| == 0 then []
    else
      var t := Trim(names[0], blank);
      (if |t| > 0 then [t] else []) + Kept(names[1..], blank)
  }

  predicate HasRange(minC: int, maxC: int) {
    minC >= 0 && maxC >= minC
  }

  /** The charge suffix each name gets: none without a range, optional when the range starts at 0, required otherwise. */
  function Suffix(minC: int, maxC: int): (r: string)
    ensures !HasRange(minC, maxC) <==> r == ""
  {
    if !HasRange(minC, maxC) then ""
    else if minC == 0 then "(?:\\((" + Alternation(minC, maxC) + ")\\))?"
    else "\\((" + Alternation(minC, maxC) + ")\\)"
  }

  /** The pattern string (ItemEntry.java:94-127, ItemEntry.kt:77-100). */
  function PatternString(names: seq<string>, minC: int, maxC: int, quote: string -> string, blank: char -> bool): string {
    var kept := Kept(names, blank);
    var pieces := seq(|kept|, i requires 0 <= i < |kept| => quote(kept[i]) + Suffix(minC, maxC));
    "^(?:" + Join(pieces, "|") + ")$"
  }

  /** The whole alternation is anchored once. */
  lemma PatternAnchored(names: seq<string>, minC: int, maxC: int, quote: string -> string, blank: char -> bool)
    ensures var p := PatternString(names, minC, maxC, quote, blank);
      |p| >= 6 && p[..4] == "^(?:" && p[|p| - 2..] == ")$"
  {
  }

  /** Names that are all blank leave an empty alternation: a pattern that matches only the empty name. */
  lemma AllBlankNames(names: seq<string>, minC: int, maxC: int, quote: string -> string, blank: char -> bool)
    requires forall k, i :: 0 <= k < |names| && 0 <= i < |names[k]| ==> blank(names[k][i])
    ensures PatternString(names, minC, maxC, quote, blank) == "^(?:)$"
  {
    assert Kept(names, blank) == [] by {
      KeptAllBlank(names, blank);
    }
  }

  lemma {:induction false} KeptAllBlank(names: seq<string>, blank: char -> bool)
    requires forall k, i :: 0 <= k < |names| && 0 <= i < |names[k]| ==> blank(names[k][i])
    ensures Kept(names, blank) == []
    decreases |names|
  {
    if |names| > 0 {
      var t := Trim(names[0], blank);
      assert forall i :: 0 <= i < |names[0]| ==> blank(names[0][i]);
      assert t == [];
      KeptAllBlank(names[1..], blank);
    }
  }

  /** One name, no charge range: the quoted, trimmed name, anchored. */
  lemma SingleName(name: string, quote: string -> string, blank: char -> bool)
    requires |Trim(name, blank)| > 0
    ensures PatternString([name], -1, -1, quote, blank) == "^(?:" + quote(Trim(name, blank)) + ")$"
  {
    var t := Trim(name, blank);
    assert Kept([name], blank) == [t] by {
      assert [name][1..] == [];
      assert Kept([name], blank) == [t] + Kept([], blank);
    }
    var pieces := seq(1, i requires 0 <= i < 1 => quote([t][i]) + Suffix(-1, -1));
    assert Suffix(-1, -1) == "";
    assert pieces[0] == quote(t) + "" == quote(t);
    assert pieces == [quote(t)];
    assert Join(pieces, "|") == quote(t);
  }

  /** The suffix is optional exactly when the range starts at 0, and it lists the range when there is one. */
  lemma SuffixOptionalAtZero(minC: int, maxC: int)
    requires HasRange(minC, maxC)
    ensures var s := Suffix(minC, maxC); s[|s| - 1] == '?' <==> minC == 0
  {
  }

  // ---------------------------------------------------------------------
  // Builders

  datatype BuildError = NoNames

  datatype Result = Built(entry: Entry) | Failed(error: BuildError)

  /** The builder's fields; `named` is false while Java's names array is null. */
  datatype Config = Config(
    names: seq<string>, named: bool,
    minQuantity: int, maxQuantity: int,
    minConsumable: int, maxConsumable: int,
    stackable: bool, optional: bool)

  /** Java Builder defaults (ItemEntry.java:49-55): min 1, max Integer.MAX_VALUE, no charge range. */
  const JavaDefaults := Config([], false, 1, IntMax, -1, -1, false, false)

  /** Kotlin ItemEntryBuilder defaults (ItemEntry.kt:36-43): min 1, max 1, no charge range. */
  const KotlinDefaults := Config([], true, 1, 1, -1, -1, false, false)

  /** build: fails without names; otherwise the entry with the pattern its names make. */
  function BuildEntry(c: Config, quote: string -> string, blank: char -> bool): (r: Result)
    ensures r.Failed? <==> !c.named || |c.names| == 0
    ensures r.Built? ==>
      r.entry == Entry(PatternString(c.names, c.minConsumable, c.maxConsumable, quote, blank),
                       c.minQuantity, c.maxQuantity, c.stackable, c.optional)
  {
    if !c.named || |c.names| == 0 then Failed(NoNames)
    else Built(Entry(PatternString(c.names, c.minConsumable, c.maxConsumable, quote, blank),
                     c.minQuantity, c.maxQuantity, c.stackable, c.optional))
  }

  /** One setter call inside a Kotlin `ItemEntryBuilder.() -> Unit` block. */
  datatype Setting =
    | Names(names: seq<string>)
    | Quantity(qty: int)
    | QuantityRange(first: int, last: int)
    | ConsumableQuantity(first: int, last: int)
    | Stackable(value: bool)
    | Optional(value: bool)

  /** What one setter changes (ItemEntry.kt:45-69). */
  function Apply(c: Config, s: Setting): Config {
    match s
    case Names(ns) => c.(names := ns, named := true)
    case Quantity(q) => c.(minQuantity := q)
    case QuantityRange(a, b) => c.(minQuantity := a, maxQuantity := b)
    case ConsumableQuantity(a, b) => c.(minConsumable := a, maxConsumable := b)
    case Stackable(v) => c.(stackable := v)
    case Optional(v) => c.(optional := v)
  }

  function ApplyAll(c: Config, block: seq<Setting>): Config
    decreases |block|
  {
    if |block| == 0 then c else ApplyAll(Apply(c, block[0]), block[1..])
  }

  /** itemEntry(block) (ItemEntry.kt:112-113) and the loadout builders' `entry`. */
  function KotlinEntry(block: seq<Setting>, quote: string -> string): Result {
    BuildEntry(ApplyAll(KotlinDefaults, block), quote, KotlinBlank)
  }

  /** A setter only touches its own fields; the last call to a setter wins. */
  lemma {:induction false} LaterSettingWins(c: Config, block: seq<Setting>, ns: seq<string>)
    requires forall k :: 0 <= k < |block| ==> !block[k].Names?
    ensures ApplyAll(c.(names := ns, named := true), block) == ApplyAll(c, block).(names := ns, named := true)
    decreases |block|
  {
    if |block| > 0 {
      LaterSettingWins(Apply(c, block[0]), block[1..], ns);
    }
  }

  /**
   * With the Kotlin defaults, `quantity(q)` with q > 1 and nothing else
   * about quantities builds an entry that is never contained unless it is
   * optional: its maximum stays 1.
   */
  lemma KotlinQuantityAboveOne(ns: seq<string>, q: int, items: seq<Item>, quote: string -> string, matches: Matcher)
    requires |ns| > 0 && q > 1
    ensures var r := KotlinEntry([Names(ns), Quantity(q)], quote);
      r.Built? && r.entry.maxQuantity == 1 && !ContainedSpec(r.entry, items, matches)
  {
    var block := [Names(ns), Quantity(q)];
    assert ApplyAll(KotlinDefaults, block) == KotlinDefaults.(names := ns, minQuantity := q) by {
      var c1 := Apply(KotlinDefaults, Names(ns));
      assert block[1..] == [Quantity(q)] && block[1..][1..] == [];
      assert ApplyAll(KotlinDefaults, block) == ApplyAll(c1, [Quantity(q)]);
      assert ApplyAll(c1, [Quantity(q)]) == ApplyAll(Apply(c1, Quantity(q)), []);
    }
    var e := KotlinEntry(block, quote).entry;
    MinAboveMaxNeverContained(e, items, matches);
  }

  /** With the Java defaults, an entry is contained by any single matching item, and by none. */
  lemma JavaDefaultsOneOrMore(ns: seq<string>, quote: string -> string, it: Item, matches: Matcher)
    requires |ns| > 0 && Matches(Entry(PatternString(ns, -1, -1, quote, JavaBlank), 1, IntMax, false, false), it, matches)
    ensures var r := BuildEntry(JavaDefaults.(names := ns, named := true), quote, JavaBlank);
      r.Built? && r.entry.minQuantity == 1 && r.entry.maxQuantity == IntMax &&
      ContainedSpec(r.entry, [it], matches) && !ContainedSpec(r.entry, [], matches)
  {
    var e := BuildEntry(JavaDefaults.(names := ns, named := true), quote, JavaBlank).entry;
    assert e == Entry(PatternString(ns, -1, -1, quote, JavaBlank), 1, IntMax, false, false);
    assert [it][..0] == [];
    assert Total(e, [it], matches) == 1;
    assert !Exceeds(e, [it], matches);
  }

  /** ItemEntry.Builder (ItemEntry.java:48-131): setters return the builder, build reads the fields. */
  class JavaEntryBuilder {
    var config: Config

    constructor()
      ensures config == JavaDefaults
    {
      config := JavaDefaults;
    }

    /** names(String...) (lines 57-60); a null array is `None`. */
    method SetNames(names: Option<seq<string>>)
      modifies this
      ensures config == old(config).(names := if names.Some? then names.value else [], named := names.Some?)
    {
      config := config.(names := if names.Some? then names.value else [], named := names.Some?);
    }

    /** quantity(int) (lines 62-65): the minimum only. */
    method SetQuantity(q: int)
      modifies this
      ensures config == old(config).(minQuantity := q)
    {
      config := config.(minQuantity := q);
    }

    /** quantity(int, int) (lines 67-71). */
    method SetQuantityRange(min: int, max: int)
      modifies this
      ensures config == old(config).(minQuantity := min, maxQuantity := max)
    {
      config := config.(minQuantity := min, maxQuantity := max);
    }

    /** consumableQuantity(int, int) (lines 73-77). */
    method SetConsumableQuantity(min: int, max: int)
      modifies this
      ensures config == old(config).(minConsumable := min, maxConsumable := max)
    {
      config := config.(minConsumable := min, maxConsumable := max);
    }

    method SetStackable(v: bool)
      modifies this
      ensures config == old(config).(stackable := v)
    {
      config := config.(stackable := v);
    }

    method SetOptional(v: bool)
      modifies this
      ensures config == old(config).(optional := v)
    {
      config := config.(optional := v);
    }

    /** build (lines 89-129). */
    method Build(quote: string -> string) returns (r: Result)
      ensures r == BuildEntry(config, quote, JavaBlank)
    {
      if !config.named || |config.names| == 0 {
        return Failed(NoNames);
      }
      var p := PatternString(config.names, config.minConsumable, config.maxConsumable, quote, JavaBlank);
      r := Built(Entry(p, config.minQuantity, config.maxQuantity, config.stackable, config.optional));
    }
  }

  /** ItemEntryBuilder (ItemEntry.kt:36-110). */
  class KotlinEntryBuilder {
    var config: Config

    constructor()
      ensures config == KotlinDefaults
    {
      config := KotlinDefaults;
    }

    /** One setter call of a block. */
    method Set(s: Setting)
      modifies this
      ensures config == Apply(old(config), s)
      ensures old(config).named ==> config.named
    {
      match s
      case Names(ns) => config := config.(names := ns, named := true);
      case Quantity(q) => config := config.(minQuantity := q);
      case QuantityRange(a, b) => config := config.(minQuantity := a, maxQuantity := b);
      case ConsumableQuantity(a, b) => config := config.(minConsumable := a, maxConsumable := b);
      case Stackable(v) => config := config.(stackable := v);
      case Optional(v) => config := config.(optional := v);
    }

    /** `apply(block)`: the setters of a block, in order. */
    method Run(block: seq<Setting>)
      modifies this
      ensures config == ApplyAll(old(config), block)
      ensures old(config).named ==> config.named
    {
      for i := 0 to |block|
        invariant ApplyAll(old(config), block) == ApplyAll(config, block[i..])
        invariant old(config).named ==> config.named
      {
        assert block[i..][1..] == block[i + 1..];
        Set(block[i]);
      }
    }

    /** build (ItemEntry.kt:71-109); the names list is never null, so `named` holds from the start. */
    method Build(quote: string -> string) returns (r: Result)
      requires config.named
      ensures r == BuildEntry(config, quote, KotlinBlank)
    {
      if |config.names| == 0 {
        return Failed(NoNames);
      }
      var p := PatternString(config.names, config.minConsumable, config.maxConsumable, quote, KotlinBlank);
      r := Built(Entry(p, config.minQuantity, config.maxQuantity, config.stackable, config.optional));
    }
  }
}
