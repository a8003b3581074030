/**
 * The bookkeeping of the interactive front end `Game`: the neighbourhood
 * clamp applied on rebuild, the parsing and sanitising of the text inputs,
 * and the bounded history of grid snapshots shown on screen.
 *
 * The `Game` here holds the settings, the input texts and the history. The
 * engine it drives is `AutomataEngine.Automata`; where `Game` reads the
 * engine's cells (`self.automata.cells()`), the snapshot is a parameter.
 */
module GameModel {
  import opened Common
  import opened Config

  // ---------------------------------------------------------------------------
  // Neighbourhood clamp
  // ---------------------------------------------------------------------------

  /** `v.max(1)` on `usize`. */
  function Max1(v: u64): (r: u64)
    ensures r >= 1 && r >= v
    ensures v >= 1 ==> r == v
  {
    if v > 1 then v else 1
  }

  /**
   * The shrinking loop of `clamp_neighborhood_to_limit`: while the product
   * exceeds `maxBits`, take one off the width when it is at least the height
   * (and above 1), otherwise one off the height (when above 1), otherwise stop.
   */
  function Shrunk(w: nat, h: nat, maxBits: nat): (nat, nat)
    decreases w + h
  {
    if w * h <= maxBits then (w, h)
    else if w >= h && w > 1 then Shrunk(w - 1, h, maxBits)
    else if h > 1 then Shrunk(w, h - 1, maxBits)
    else (w, h)
  }

  /** What `clamp_neighborhood_to_limit(w, h)` returns: both sides raised to 1, then shrunk to the ceiling. */
  function Clamped(w: u64, h: u64): (nat, nat) {
    Shrunk(Max1(w), Max1(h), MAX_NEIGHBORHOOD_BITS)
  }

  /** Shrinking keeps both sides at least 1, never grows a side, and (for a ceiling of at least 1) fits the ceiling. */
  lemma {:induction false} ShrunkBounds(w: nat, h: nat, maxBits: nat)
    requires w >= 1 && h >= 1
    ensures var r := Shrunk(w, h, maxBits);
      1 <= r.0 <= w && 1 <= r.1 <= h && (maxBits >= 1 ==> r.0 * r.1 <= maxBits)
    decreases w + h
  {
    if w * h <= maxBits {
    } else if w >= h && w > 1 {
      ShrunkBounds(w - 1, h, maxBits);
    } else if h > 1 {
      ShrunkBounds(w, h - 1, maxBits);
    }
  }

  /**
   * Ties shrink the width first: when the width was shrunk it ends at least the
   * final height less one, and when the height was shrunk it ends at least the
   * final width.
   */
  lemma {:induction false} ShrunkShape(w: nat, h: nat, maxBits: nat)
    requires w >= 1 && h >= 1
    ensures var r := Shrunk(w, h, maxBits);
      (r.0 < w ==> r.1 <= r.0 + 1) && (r.1 < h ==> r.0 <= r.1)
    decreases w + h
  {
    if w * h <= maxBits {
    } else if w >= h && w > 1 {
      ShrunkShape(w - 1, h, maxBits);
      ShrunkBounds(w - 1, h, maxBits);
    } else if h > 1 {
      ShrunkShape(w, h - 1, maxBits);
      ShrunkBounds(w, h - 1, maxBits);
    }
  }

  /**
   * `clamp_neighborhood_to_limit`: the neighbourhood after rebuild has both
   * sides at least 1, at most `MAX_NEIGHBORHOOD_BITS` cells, no side larger
   * than requested (after raising to 1), and it is the request itself exactly
   * when the request fits.
   */
  method ClampNeighborhoodToLimit(w0: u64, h0: u64) returns (w: u64, h: u64)
    ensures (w, h) == Clamped(w0, h0)
    ensures 1 <= w <= Max1(w0) && 1 <= h <= Max1(h0)
    ensures w * h <= MAX_NEIGHBORHOOD_BITS
    ensures (w == Max1(w0) && h == Max1(h0)) <==> Max1(w0) * Max1(h0) <= MAX_NEIGHBORHOOD_BITS
  {
    var maxBits := MAX_NEIGHBORHOOD_BITS;
    w := Max1(w0);
    h := Max1(h0);
    if w * h <= maxBits {
      return;
    }
    while w * h > maxBits
      invariant 1 <= w <= Max1(w0) && 1 <= h <= Max1(h0)
      invariant Shrunk(w, h, maxBits) == Clamped(w0, h0)
      decreases w + h
    {
      if w >= h && w > 1 {
        w := w - 1;
      } else if h > 1 {
        h := h - 1;
      } else {
        break;
      }
    }
    ShrunkBounds(Max1(w0), Max1(h0), maxBits);
  }

  /** The shrinking loop as compiled without overflow checks: the product `w * h` wraps modulo `2^64`. */
  function ShrunkWrapping(w: nat, h: nat, maxBits: nat): (nat, nat)
    decreases w + h
  {
    if (w * h) % 0x1_0000_0000_0000_0000 <= maxBits then (w, h)
    else if w >= h && w > 1 then ShrunkWrapping(w - 1, h, maxBits)
    else if h > 1 then ShrunkWrapping(w, h - 1, maxBits)
    else (w, h)
  }

  /** A `2^32` by `2^32` request wraps to a product of 0 and passes the clamp unchanged. */
  lemma WrappingClampAcceptsHugeNeighborhood()
    ensures ShrunkWrapping(0x1_0000_0000, 0x1_0000_0000, MAX_NEIGHBORHOOD_BITS) == (0x1_0000_0000, 0x1_0000_0000)
    ensures 0x1_0000_0000 * 0x1_0000_0000 > MAX_NEIGHBORHOOD_BITS
  {
    assert (0x1_0000_0000 * 0x1_0000_0000) % 0x1_0000_0000_0000_0000 == 0;
  }

  // ---------------------------------------------------------------------------
  // Text: decimal rendering, trimming, parsing
  // ---------------------------------------------------------------------------

  predicate IsAsciiDigit(c: char) {
    '0' <= c <= '9'
  }

  predicate AllDigits(s: string) {
    forall i :: 0 <= i < |s| ==> IsAsciiDigit(s[i])
  }

  /** Rust's `char::is_whitespace`: the Unicode `White_Space` characters. */
  predicate IsWhitespace(c: char) {
    ('\t' <= c <= '\r') || c == ' ' || c == '\U{85}' || c == '\U{A0}' || c == '\U{1680}' ||
    ('\U{2000}' <= c <= '\U{200A}') || c == '\U{2028}' || c == '\U{2029}' || c == '\U{202F}' ||
    c == '\U{205F}' || c == '\U{3000}'
  }

  function DigitChar(d: nat): (c: char)
    requires d < 10
    ensures IsAsciiDigit(c)
  {
    (d + 48) as char
  }

  function DigitValue(c: char): (d: nat)
    requires IsAsciiDigit(c)
    ensures d < 10 && DigitChar(d) == c
  {
    c as int - 48
  }

  /** The number a digit string denotes, read left to right as `from_str_radix` does. */
  function Value(s: string): nat
    requires AllDigits(s)
  {
    if |s| == 0 then 0 else Value(s[..|s| - 1]) * 10 + DigitValue(s[|s| - 1])
  }

  /** `usize::to_string`: decimal digits, with no leading zero. */
  function ToDecimal(n: nat): string
    decreases n
  {
    if n < 10 then [DigitChar(n)] else ToDecimal(n / 10) + [DigitChar(n % 10)]
  }

  /** A rendered number is a nonempty run of digits that starts with `0` only for zero itself. */
  lemma {:induction false} DecimalShape(n: nat)
    ensures |ToDecimal(n)| >= 1 && AllDigits(ToDecimal(n))
    ensures ToDecimal(n)[0] == '0' ==> n == 0
    decreases n
  {
    if n >= 10 {
      DecimalShape(n / 10);
    }
  }

  /** Reading back a rendered number gives the number. */
  lemma {:induction false} ValueOfDecimal(n: nat)
    ensures AllDigits(ToDecimal(n)) && Value(ToDecimal(n)) == n
    decreases n
  {
    DecimalShape(n);
    if n >= 10 {
      var s := ToDecimal(n);
      DecimalShape(n / 10);
      ValueOfDecimal(n / 10);
      assert s[..|s| - 1] == ToDecimal(n / 10);
    }
  }

  /** A digit string with a nonzero first digit denotes a positive number. */
  lemma {:induction false} ValuePositive(s: string)
    requires AllDigits(s) && |s| >= 1 && s[0] != '0'
    ensures Value(s) >= 1
  {
    if |s| > 1 {
      ValuePositive(s[..|s| - 1]);
    }
  }

  /** Conversely, rendering the value of a digit string without leading zeros gives the string back. */
  lemma {:induction false} DecimalOfValue(s: string)
    requires AllDigits(s) && |s| >= 1 && (s[0] != '0' || |s| == 1)
    ensures ToDecimal(Value(s)) == s
  {
    var last := |s| - 1;
    if |s| > 1 {
      var prefix := s[..last];
      ValuePositive(prefix);
      DecimalOfValue(prefix);
      var v := Value(s);
      DivModUnique(v, 10, Value(prefix), DigitValue(s[last]));
      assert s == prefix + [s[last]];
    }
  }

  /** `trim_start`: the suffix after the leading whitespace. */
  function TrimStart(s: string): (r: string)
    ensures |r| <= |s| && r == s[|s| - |r|..]
    ensures forall i :: 0 <= i < |s| - |r| ==> IsWhitespace(s[i])
    ensures |r| > 0 ==> !IsWhitespace(r[0])
    decreases |s|
  {
    if |s| > 0 && IsWhitespace(s[0]) then TrimStart(s[1..]) else s
  }

  /** `trim_end`: the prefix before the trailing whitespace. */
  function TrimEnd(s: string): (r: string)
    ensures |r| <= |s| && r == s[..|r|]
    ensures forall i :: |r| <= i < |s| ==> IsWhitespace(s[i])
    ensures |r| > 0 ==> !IsWhitespace(r[|r| - 1])
    decreases |s|
  {
    if |s| > 0 && IsWhitespace(s[|s| - 1]) then TrimEnd(s[..|s| - 1]) else s
  }

  /** `str::trim`. */
  function Trim(s: string): string {
    TrimEnd(TrimStart(s))
  }

  /** Leading whitespace before a text that starts with non-whitespace is exactly what `trim_start` drops. */
  lemma {:induction false} TrimStartSkips(pre: string, x: string)
    requires forall i :: 0 <= i < |pre| ==> IsWhitespace(pre[i])
    requires |x| >= 1 && !IsWhitespace(x[0])
    ensures TrimStart(pre + x) == x
    decreases |pre|
  {
    if |pre| == 0 {
      assert pre + x == x;
    } else {
      assert (pre + x)[1..] == pre[1..] + x;
      TrimStartSkips(pre[1..], x);
    }
  }

  /** Trailing whitespace after a text that ends with non-whitespace is exactly what `trim_end` drops. */
  lemma {:induction false} TrimEndSkips(x: string, post: string)
    requires forall i :: 0 <= i < |post| ==> IsWhitespace(post[i])
    requires |x| >= 1 && !IsWhitespace(x[|x| - 1])
    ensures TrimEnd(x + post) == x
    decreases |post|
  {
    if |post| == 0 {
      assert x + post == x;
    } else {
      var s := x + post;
      assert s[..|s| - 1] == x + post[..|post| - 1];
      TrimEndSkips(x, post[..|post| - 1]);
    }
  }

  /** Trimming removes exactly the whitespace around a text that starts and ends with non-whitespace. */
  lemma TrimPadded(pre: string, core: string, post: string)
    requires forall i :: 0 <= i < |pre| ==> IsWhitespace(pre[i])
    requires forall i :: 0 <= i < |post| ==> IsWhitespace(post[i])
    requires |core| >= 1 && !IsWhitespace(core[0]) && !IsWhitespace(core[|core| - 1])
    ensures Trim(pre + core + post) == core
  {
    assert pre + core + post == pre + (core + post);
    TrimStartSkips(pre, core + post);
    TrimEndSkips(core, post);
  }

  /**
   * `str::parse::<usize>` on 64-bit targets: an optional `+`, then at least one
   * ASCII digit and nothing else, denoting at most `usize::MAX`.
   */
  function ParseUsize(s: string): Option<u64> {
    var digits := if |s| > 0 && s[0] == '+' then s[1..] else s;
    if |digits| == 0 || !AllDigits(digits) then None
    else if Value(digits) > U64_MAX then None
    else Some(Value(digits))
  }

  /**
   * The `parse` closure of `apply_inputs`: the trimmed text as a positive
   * `usize`, or the fallback when it is empty, not a number, zero, or too large.
   */
  function Parse(s: string, fallback: u64): (r: u64)
    ensures r == fallback || (r > 0 && ParseUsize(Trim(s)) == Some(r))
  {
    match ParseUsize(Trim(s))
    case Some(v) => if v > 0 then v else fallback
    case None => fallback
  }

  /** A rendered positive number, with any whitespace around it, parses back to itself. */
  lemma ParseRendered(pre: string, n: u64, post: string, fallback: u64)
    requires forall i :: 0 <= i < |pre| ==> IsWhitespace(pre[i])
    requires forall i :: 0 <= i < |post| ==> IsWhitespace(post[i])
    requires n >= 1
    ensures Parse(pre + ToDecimal(n) + post, fallback) == n
  {
    var d := ToDecimal(n);
    DecimalShape(n);
    TrimPadded(pre, d, post);
    ValueOfDecimal(n);
  }

  /**
   * On a digit-only text (what sanitising leaves) the parse is the number it
   * denotes when that is in `1 ..= usize::MAX`, and the fallback otherwise.
   */
  lemma ParseDigits(s: string, fallback: u64)
    requires AllDigits(s)
    ensures Parse(s, fallback) == if |s| > 0 && 1 <= Value(s) <= U64_MAX then Value(s) else fallback
  {
    if |s| > 0 {
      TrimPadded("", s, "");
      assert "" + s + "" == s;
    }
  }

  // ---------------------------------------------------------------------------
  // Sanitising
  // ---------------------------------------------------------------------------

  predicate IsDigitOrDot(c: char) {
    IsAsciiDigit(c) || c == '.'
  }

  /** `String::retain(keep)`: the characters `keep` accepts, in their order. */
  function Retain(s: string, keep: char -> bool): (r: string)
    ensures |r| <= |s|
    ensures forall i :: 0 <= i < |r| ==> keep(r[i])
  {
    if |s| == 0 then "" else (if keep(s[0]) then [s[0]] else "") + Retain(s[1..], keep)
  }

  /** Nothing is removed from a text whose every character is kept. */
  lemma {:induction false} RetainAllKept(s: string, keep: char -> bool)
    requires forall i :: 0 <= i < |s| ==> keep(s[i])
    ensures Retain(s, keep) == s
  {
    if |s| > 0 {
      RetainAllKept(s[1..], keep);
    }
  }

  /** Sanitising twice is sanitising once. */
  lemma RetainIdempotent(s: string, keep: char -> bool)
    ensures Retain(Retain(s, keep), keep) == Retain(s, keep)
  {
    RetainAllKept(Retain(s, keep), keep);
  }

  /** Retaining works piece by piece, so the kept characters stay in their order. */
  lemma {:induction false} RetainAppend(a: string, b: string, keep: char -> bool)
    ensures Retain(a + b, keep) == Retain(a, keep) + Retain(b, keep)
    decreases |a|
  {
    if |a| == 0 {
      assert a + b == b;
    } else {
      var head := if keep(a[0]) then [a[0]] else "";
      var ab := a + b;
      assert ab[0] == a[0] && ab[1..] == a[1..] + b;
      assert Retain(ab, keep) == head + Retain(a[1..] + b, keep);
      assert Retain(a, keep) == head + Retain(a[1..], keep);
      RetainAppend(a[1..], b, keep);
      assert head + (Retain(a[1..], keep) + Retain(b, keep)) == (head + Retain(a[1..], keep)) + Retain(b, keep);
    }
  }

  /** Sanitising keeps every accepted character as often as it occurs, and none other. */
  lemma {:induction false} RetainCounts(s: string, keep: char -> bool, c: char)
    ensures multiset(Retain(s, keep))[c] == if keep(c) then multiset(s)[c] else 0
  {
    if |s| > 0 {
      RetainCounts(s[1..], keep, c);
      assert s == [s[0]] + s[1..];
    }
  }

  // ---------------------------------------------------------------------------
  // The spawn-chance text
  // ---------------------------------------------------------------------------

  /** `p * 100` rounded to the nearest integer, exact ties to even, for a chance in `[0, 1]`. */
  function Hundredths(p: real): (n: nat)
    requires 0.0 <= p <= 1.0
    ensures n <= 100
    ensures -0.5 <= p * 100.0 - n as real <= 0.5
  {
    var x := p * 100.0;
    var f := x.Floor;
    var frac := x - f as real;
    if frac > 0.5 || (frac == 0.5 && f % 2 == 1) then f + 1 else f
  }

  /** `format!("{:.2}", p)` for a chance in `[0, 1]`: one digit, a point, two digits. */
  function FormatChance(p: real): string
    requires 0.0 <= p <= 1.0
  {
    var n := Hundredths(p);
    [DigitChar(n / 100), '.', DigitChar(n / 10 % 10), DigitChar(n % 10)]
  }

  /** The chance text is one digit, a point and two digits that together read as the rounded hundredths. */
  lemma ChanceShape(p: real)
    requires 0.0 <= p <= 1.0
    ensures var s := FormatChance(p);
      |s| == 4 && s[1] == '.' && IsAsciiDigit(s[0]) && IsAsciiDigit(s[2]) && IsAsciiDigit(s[3]) &&
      DigitValue(s[0]) * 100 + DigitValue(s[2]) * 10 + DigitValue(s[3]) == Hundredths(p)
  {
  }

  // ---------------------------------------------------------------------------
  // History
  // ---------------------------------------------------------------------------

  /** `add_history` on the snapshot list: drop the oldest when full (`pop_front` of an empty list does nothing), then append. */
  function Push<T>(history: seq<T>, cap: nat, snapshot: T): (r: seq<T>)
    ensures |r| >= 1 && r[|r| - 1] == snapshot
  {
    (if |history| == cap && |history| > 0 then history[1..] else history) + [snapshot]
  }

  /**
   * A push keeps the length at `cap` once the history is full and otherwise
   * grows it by one; the snapshot is the newest entry and the entries before
   * it are the newest of the old ones, in order.
   */
  lemma PushFifo<T>(history: seq<T>, cap: nat, snapshot: T)
    ensures var r := Push(history, cap, snapshot);
      |r| == (if |history| == cap && cap > 0 then cap else |history| + 1) &&
      r[|r| - 1] == snapshot && r[..|r| - 1] == history[|history| + 1 - |r|..]
  {
  }

  /** Snapshots pushed one after another. */
  function PushAll<T>(history: seq<T>, cap: nat, snapshots: seq<T>): seq<T>
    decreases |snapshots|
  {
    if |snapshots| == 0 then history else PushAll(Push(history, cap, snapshots[0]), cap, snapshots[1..])
  }

  /** The newest `cap` entries of `s`. */
  function Window<T>(s: seq<T>, cap: nat): (r: seq<T>)
    ensures |r| <= cap || r == s
  {
    if |s| <= cap then s else s[|s| - cap..]
  }

  /** Taking the newest entries twice is taking them once, of everything. */
  lemma WindowOfWindow<T>(s: seq<T>, t: seq<T>, cap: nat)
    ensures Window(Window(s, cap) + t, cap) == Window(s + t, cap)
  {
    if |s| > cap {
      var u := Window(s, cap) + t;
      var v := s + t;
      assert |Window(u, cap)| == |Window(v, cap)|;
      forall i | 0 <= i < |Window(u, cap)|
        ensures Window(u, cap)[i] == Window(v, cap)[i]
      {
        var k := |Window(u, cap)| - i;
        assert Window(u, cap)[i] == u[|u| - k];
        assert Window(v, cap)[i] == v[|v| - k];
      }
    }
  }

  /**
   * A FIFO of capacity `cap`: however many snapshots are pushed, the history
   * is the newest `cap` of the old entries followed by the snapshots.
   */
  lemma {:induction false} HistoryIsWindow<T>(history: seq<T>, cap: nat, snapshots: seq<T>)
    requires cap >= 1 && |history| <= cap
    ensures PushAll(history, cap, snapshots) == Window(history + snapshots, cap)
    decreases |snapshots|
  {
    if |snapshots| > 0 {
      var x := snapshots[0];
      var pushed := Push(history, cap, x);
      assert pushed == Window(history + [x], cap);
      HistoryIsWindow(pushed, cap, snapshots[1..]);
      WindowOfWindow(history + [x], snapshots[1..], cap);
      assert history + [x] + snapshots[1..] == history + snapshots;
    }
  }

  function Zeros(n: nat): seq<u8> {
    seq(n, _ => 0)
  }

  /** The `history_length` blank frames `init` and `reset` start from. */
  function Blank(count: nat, size: nat): seq<seq<u8>> {
    seq(count, _ => Zeros(size))
  }

  /**
   * After `init` or `reset` with a capacity of at least 1, the history holds
   * `cap` frames: `cap - 1` blank ones and then the snapshot.
   */
  lemma InitLayout(cap: nat, size: nat, snapshot: seq<u8>)
    requires cap >= 1
    ensures var h := Push(Blank(cap, size), cap, snapshot);
      |h| == cap && h[cap - 1] == snapshot && forall i :: 0 <= i < cap - 1 ==> h[i] == Zeros(size)
  {
    var h := Push(Blank(cap, size), cap, snapshot);
    assert h == Blank(cap, size)[1..] + [snapshot];
  }

  // ---------------------------------------------------------------------------
  // The game's settings, inputs and history
  // ---------------------------------------------------------------------------

  class Game {
    var history: seq<seq<u8>>
    var historyLength: u64
    var gridW: u64
    var gridH: u64
    var neighborhoodW: u64
    var neighborhoodH: u64
    var spawnChance: real
    var inputGridW: string
    var inputGridH: string
    var inputNeighborhoodW: string
    var inputNeighborhoodH: string
    var inputHistoryLength: string
    var inputSpawnChance: string

    /**
     * The history is never empty, holds at most `historyLength` frames when
     * that is at least 1, and every frame is a 0/1 grid of `gridW * gridH` cells.
     */
    ghost predicate Valid()
      reads this
    {
      |history| >= 1 && Frames() && 0.0 <= spawnChance <= 1.0
    }

    /** At most `historyLength` frames when that is at least 1, each a 0/1 grid of `gridW * gridH` cells. */
    ghost predicate Frames()
      reads this
    {
      (historyLength >= 1 ==> |history| <= historyLength) &&
      forall i :: 0 <= i < |history| ==> |history[i]| == gridW * gridH && Binary(history[i])
    }

    /**
     * `Game::new`, without the engine and the image: the settings as given
     * (nothing is clamped here), their texts, and `init`. The engine's
     * `Automata::new` panics on a chance outside `[0, 1]`; `snapshot` is its
     * grid.
     */
    constructor (gridW: u64, gridH: u64, historyLength: u64, neighborhoodW: u64, neighborhoodH: u64,
                 spawnChance: real, snapshot: seq<u8>)
      requires 0.0 <= spawnChance <= 1.0
      requires |snapshot| == gridW * gridH && Binary(snapshot)
      ensures Valid()
      ensures this.gridW == gridW && this.gridH == gridH && this.historyLength == historyLength
      ensures this.neighborhoodW == neighborhoodW && this.neighborhoodH == neighborhoodH
      ensures this.spawnChance == spawnChance
      ensures inputGridW == ToDecimal(gridW) && inputGridH == ToDecimal(gridH)
      ensures inputNeighborhoodW == ToDecimal(neighborhoodW) && inputNeighborhoodH == ToDecimal(neighborhoodH)
      ensures inputHistoryLength == ToDecimal(historyLength) && inputSpawnChance == FormatChance(spawnChance)
      ensures history == Push(Blank(historyLength, gridW * gridH), historyLength, snapshot)
    {
      this.historyLength := historyLength;
      this.gridW := gridW;
      this.gridH := gridH;
      this.neighborhoodW := neighborhoodW;
      this.neighborhoodH := neighborhoodH;
      this.spawnChance := spawnChance;
      inputGridW := ToDecimal(gridW);
      inputGridH := ToDecimal(gridH);
      inputNeighborhoodW := ToDecimal(neighborhoodW);
      inputNeighborhoodH := ToDecimal(neighborhoodH);
      inputHistoryLength := ToDecimal(historyLength);
      inputSpawnChance := FormatChance(spawnChance);
      history := [snapshot];
      new;
      Init(snapshot);
    }

    /** `add_history`: the engine's current grid becomes the newest frame, evicting the oldest when full. */
    method AddHistory(snapshot: seq<u8>)
      requires Frames() && |snapshot| == gridW * gridH && Binary(snapshot)
      modifies this`history
      ensures Frames()
      ensures history == Push(old(history), historyLength, snapshot)
    {
      if |history| == historyLength && |history| > 0 {
        history := history[1..];
      }
      history := history + [snapshot];
    }

    /**
     * `init`, and the history part of `reset` (which repeats it): `historyLength`
     * blank frames, then `add_history`.
     */
    method Init(snapshot: seq<u8>)
      requires |snapshot| == gridW * gridH && Binary(snapshot) && 0.0 <= spawnChance <= 1.0
      modifies this`history
      ensures Valid()
      ensures history == Push(Blank(historyLength, gridW * gridH), historyLength, snapshot)
    {
      history := Blank(historyLength, gridW * gridH);
      AddHistory(snapshot);
    }

    /**
     * `rebuild`, without the engine and the image: sizes and the history
     * length raised to at least 1, the neighbourhood clamped, the chance
     * clamped to `[0, 1]`, the history reset around the new engine's grid
     * `snapshot`, and the input texts rendered from the new settings.
     */
    method Rebuild(gridW: u64, gridH: u64, historyLength: u64, neighborhoodW: u64, neighborhoodH: u64,
                   spawnChance: real, snapshot: seq<u8>)
      requires |snapshot| == Max1(gridW) * Max1(gridH) && Binary(snapshot)
      modifies this
      ensures Valid()
      ensures this.gridW == Max1(gridW) && this.gridH == Max1(gridH) && this.historyLength == Max1(historyLength)
      ensures (this.neighborhoodW, this.neighborhoodH) == Clamped(neighborhoodW, neighborhoodH)
      ensures this.spawnChance == Clamp01(spawnChance)
      ensures history == Push(Blank(this.historyLength, this.gridW * this.gridH), this.historyLength, snapshot)
      ensures |history| == this.historyLength
      ensures inputGridW == ToDecimal(Max1(gridW)) && inputGridH == ToDecimal(Max1(gridH))
      ensures inputHistoryLength == ToDecimal(Max1(historyLength))
      ensures inputNeighborhoodW == ToDecimal(Clamped(neighborhoodW, neighborhoodH).0)
      ensures inputNeighborhoodH == ToDecimal(Clamped(neighborhoodW, neighborhoodH).1)
      ensures inputSpawnChance == FormatChance(Clamp01(spawnChance))
    {
      var newW, newH, newHistoryLength := Max1(gridW), Max1(gridH), Max1(historyLength);
      var w, h := ClampNeighborhoodToLimit(neighborhoodW, neighborhoodH);
      var chance := Clamp01(spawnChance);
      Configure(newW, newH, newHistoryLength, w, h, chance);
      Init(snapshot);
      InitLayout(newHistoryLength, |snapshot|, snapshot);
      RenderInputs(newW, newH, newHistoryLength, w, h, chance);
    }

    /** The settings part of `rebuild`: the already clamped values replace the old ones. */
    method Configure(gridW: u64, gridH: u64, historyLength: u64, neighborhoodW: u64, neighborhoodH: u64, spawnChance: real)
      modifies this`gridW, this`gridH, this`historyLength, this`neighborhoodW, this`neighborhoodH, this`spawnChance
      ensures this.gridW == gridW && this.gridH == gridH && this.historyLength == historyLength
      ensures this.neighborhoodW == neighborhoodW && this.neighborhoodH == neighborhoodH
      ensures this.spawnChance == spawnChance
    {
      this.gridW, this.gridH, this.historyLength := gridW, gridH, historyLength;
      this.neighborhoodW, this.neighborhoodH, this.spawnChance := neighborhoodW, neighborhoodH, spawnChance;
    }

    /** The input texts rendered from the given settings, as `rebuild` sets them. */
    method RenderInputs(gridW: u64, gridH: u64, historyLength: u64, neighborhoodW: u64, neighborhoodH: u64, spawnChance: real)
      requires 0.0 <= spawnChance <= 1.0
      modifies this`inputGridW, this`inputGridH, this`inputNeighborhoodW, this`inputNeighborhoodH,
               this`inputHistoryLength, this`inputSpawnChance
      ensures inputGridW == ToDecimal(gridW) && inputGridH == ToDecimal(gridH)
      ensures inputNeighborhoodW == ToDecimal(neighborhoodW) && inputNeighborhoodH == ToDecimal(neighborhoodH)
      ensures inputHistoryLength == ToDecimal(historyLength) && inputSpawnChance == FormatChance(spawnChance)
    {
      inputGridW := ToDecimal(gridW);
      inputGridH := ToDecimal(gridH);
      inputNeighborhoodW := ToDecimal(neighborhoodW);
      inputNeighborhoodH := ToDecimal(neighborhoodH);
      inputHistoryLength := ToDecimal(historyLength);
      inputSpawnChance := FormatChance(spawnChance);
    }

    /**
     * `apply_inputs`: every integer text parsed with the current setting as
     * the fallback, the chance text's `f32` parse (`parsedChance`, `None` when
     * it fails) clamped or else the current chance, then `rebuild`.
     */
    method ApplyInputs(parsedChance: Option<real>, snapshot: seq<u8>)
      requires |snapshot| == Max1(Parse(inputGridW, gridW)) * Max1(Parse(inputGridH, gridH)) && Binary(snapshot)
      modifies this
      ensures Valid()
      ensures gridW == Max1(Parse(old(inputGridW), old(gridW)))
      ensures gridH == Max1(Parse(old(inputGridH), old(gridH)))
      ensures historyLength == Max1(Parse(old(inputHistoryLength), old(historyLength)))
      ensures (neighborhoodW, neighborhoodH)
           == Clamped(Parse(old(inputNeighborhoodW), old(neighborhoodW)), Parse(old(inputNeighborhoodH), old(neighborhoodH)))
      ensures spawnChance == if parsedChance.Some? then Clamp01(parsedChance.value) else Clamp01(old(spawnChance))
      ensures history == Push(Blank(historyLength, gridW * gridH), historyLength, snapshot)
    {
      var newW := Parse(inputGridW, gridW);
      var newH := Parse(inputGridH, gridH);
      var newNeighborhoodW := Parse(inputNeighborhoodW, neighborhoodW);
      var newNeighborhoodH := Parse(inputNeighborhoodH, neighborhoodH);
      var newHistoryLength := Parse(inputHistoryLength, historyLength);
      var newSpawnChance := if parsedChance.Some? then Clamp01(parsedChance.value) else spawnChance;
      Rebuild(newW, newH, newHistoryLength, newNeighborhoodW, newNeighborhoodH, newSpawnChance, snapshot);
    }

    /** `sanitize_inputs`: digits only in the integer texts, digits and `.` in the chance text. */
    method SanitizeInputs()
      modifies this`inputGridW, this`inputGridH, this`inputNeighborhoodW, this`inputNeighborhoodH,
               this`inputHistoryLength, this`inputSpawnChance
      ensures inputGridW == Retain(old(inputGridW), IsAsciiDigit) && inputGridH == Retain(old(inputGridH), IsAsciiDigit)
      ensures inputNeighborhoodW == Retain(old(inputNeighborhoodW), IsAsciiDigit)
      ensures inputNeighborhoodH == Retain(old(inputNeighborhoodH), IsAsciiDigit)
      ensures inputHistoryLength == Retain(old(inputHistoryLength), IsAsciiDigit)
      ensures inputSpawnChance == Retain(old(inputSpawnChance), IsDigitOrDot)
    {
      inputGridW := Retain(inputGridW, IsAsciiDigit);
      inputGridH := Retain(inputGridH, IsAsciiDigit);
      inputNeighborhoodW := Retain(inputNeighborhoodW, IsAsciiDigit);
      inputNeighborhoodH := Retain(inputNeighborhoodH, IsAsciiDigit);
      inputHistoryLength := Retain(inputHistoryLength, IsAsciiDigit);
      inputSpawnChance := Retain(inputSpawnChance, IsDigitOrDot);
    }
  }

  /** The texts `rebuild` renders are already sanitised: sanitising them changes nothing. */
  lemma RenderedTextsAreSanitized(n: nat, p: real)
    requires 0.0 <= p <= 1.0
    ensures Retain(ToDecimal(n), IsAsciiDigit) == ToDecimal(n)
    ensures Retain(FormatChance(p), IsDigitOrDot) == FormatChance(p)
  {
    DecimalShape(n);
    ChanceShape(p);
    RetainAllKept(ToDecimal(n), IsAsciiDigit);
    RetainAllKept(FormatChance(p), IsDigitOrDot);
  }
}
