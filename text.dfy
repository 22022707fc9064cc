/** The string operations the search and the sort use: case folding
    (`String.prototype.toLowerCase`), substring search (`String.prototype.includes`) and
    JavaScript's `<` on strings, which compares UTF-16 code units. Case folding is
    restricted to ASCII letters. */
module Text {

  /** ASCII case folding of one character; every other character is kept. */
  function LowerChar(c: char): char {
    if 'A' <= c <= 'Z' then (c as int + 32) as char else c
  }

  /** `s.toLowerCase()`, character by character. */
  function Lower(s: string): (r: string)
    ensures |r| == |s|
    ensures forall i :: 0 <= i < |s| ==> r[i] == LowerChar(s[i])
  {
    if s == [] then [] else [LowerChar(s[0])] + Lower(s[1..])
  }

  /** Folding an already folded string changes nothing. */
  lemma LowerIdempotent(s: string)
    ensures Lower(Lower(s)) == Lower(s)
  {
    assert forall i :: 0 <= i < |s| ==> Lower(Lower(s))[i] == Lower(s)[i];
  }

  /** `needle` occurs in `hay` starting at position `k`. */
  predicate OccursAt(hay: string, needle: string, k: int) {
    0 <= k && k + |needle| <= |hay| && hay[k..k + |needle|] == needle
  }

  /** Dropping the first character shifts every slice by one. */
  lemma SliceShift(hay: string, k: nat, len: nat)
    requires k + len + 1 <= |hay|
    ensures hay[1..][k..k + len] == hay[k + 1..k + 1 + len]
  {
    var a, b := hay[1..][k..k + len], hay[k + 1..k + 1 + len];
    assert forall m :: 0 <= m < len ==> a[m] == b[m];
  }

  /** `hay.includes(needle)`, found by trying each starting position in turn. */
  predicate Contains(hay: string, needle: string)
    ensures needle == [] ==> Contains(hay, needle)
    ensures Contains(hay, needle) ==> |needle| <= |hay|
    decreases |hay|
  {
    needle <= hay || (hay != [] && Contains(hay[1..], needle))
  }

  /** The search finds `needle` exactly when it occurs at some position of `hay`; in
      particular the empty string occurs everywhere. */
  lemma {:induction false} ContainsIff(hay: string, needle: string)
    ensures Contains(hay, needle) <==> exists k :: OccursAt(hay, needle, k)
  {
    if needle <= hay {
      assert OccursAt(hay, needle, 0);
    } else if hay != [] {
      ContainsIff(hay[1..], needle);
      if k :| OccursAt(hay[1..], needle, k) {
        SliceShift(hay, k, |needle|);
        assert OccursAt(hay, needle, k + 1);
      }
      if k :| OccursAt(hay, needle, k) && k != 0 {
        SliceShift(hay, k - 1, |needle|);
        assert OccursAt(hay[1..], needle, k - 1);
      }
    }
  }

  /** A non-empty needle is found only where its first character occurs. */
  lemma {:induction false} ContainsFirstChar(hay: string, needle: string)
    requires needle != [] && Contains(hay, needle)
    ensures needle[0] in hay
    decreases |hay|
  {
    if !(needle <= hay) {
      ContainsFirstChar(hay[1..], needle);
    }
  }

  /** The UTF-16 code units of one character: itself below U+10000, otherwise a high and a
      low surrogate. */
  function CharUnits(c: char): (r: seq<int>)
    ensures |r| == 1 || |r| == 2
    ensures forall k :: 0 <= k < |r| ==> 0 <= r[k] < 0x1_0000
    ensures |r| == 1 <==> !(0xD800 <= r[0] < 0xDC00)
    ensures |r| == 1 <==> c as int < 0x1_0000
    ensures |r| == 1 ==> r[0] == c as int
    ensures |r| == 2 ==> 0xDC00 <= r[1] < 0xE000 && 0x1_0000 + (r[0] - 0xD800) * 0x400 + (r[1] - 0xDC00) == c as int
  {
    if c as int < 0x1_0000 then [c as int]
    else
      var v := c as int - 0x1_0000;
      assert v == 0x400 * (v / 0x400) + v % 0x400;
      [0xD800 + v / 0x400, 0xDC00 + v % 0x400]
  }

  /** The UTF-16 code units of a string, as JavaScript stores it. */
  function Units(s: string): (r: seq<int>)
    ensures forall k :: 0 <= k < |r| ==> 0 <= r[k] < 0x1_0000
    ensures |s| <= |r| <= 2 * |s|
  {
    if s == [] then [] else CharUnits(s[0]) + Units(s[1..])
  }

  /** The first units decide which character came first. */
  lemma CharUnitsPrefix(x: char, y: char, a: seq<int>, b: seq<int>)
    requires CharUnits(x) + a == CharUnits(y) + b
    ensures x == y && a == b
  {
    var cx, cy := CharUnits(x), CharUnits(y);
    assert (cx + a)[0] == cx[0] && (cy + b)[0] == cy[0];
    assert |cx| == |cy|;
    if |cx| == 2 {
      assert (cx + a)[1] == cx[1] && (cy + b)[1] == cy[1];
      var v, w := x as int - 0x1_0000, y as int - 0x1_0000;
      assert v == 0x400 * (v / 0x400) + v % 0x400;
      assert w == 0x400 * (w / 0x400) + w % 0x400;
    }
    assert a == (cx + a)[|cx|..] && b == (cy + b)[|cy|..];
  }

  /** Different strings have different code units. */
  lemma {:induction false} UnitsInjective(a: string, b: string)
    requires Units(a) == Units(b)
    ensures a == b
  {
    if a != [] && b != [] {
      CharUnitsPrefix(a[0], b[0], Units(a[1..]), Units(b[1..]));
      UnitsInjective(a[1..], b[1..]);
      assert a == [a[0]] + a[1..] && b == [b[0]] + b[1..];
    }
  }

  /** Lexicographic order on code units: the first differing unit decides, and a proper
      prefix comes first. */
  predicate UnitsLess(a: seq<int>, b: seq<int>)
    decreases |a|
  {
    if a == [] then b != []
    else if b == [] then false
    else if a[0] != b[0] then a[0] < b[0]
    else UnitsLess(a[1..], b[1..])
  }

  /** Exactly one of `a < b`, `b < a` and `a == b` holds on code units. */
  lemma {:induction false} UnitsLessTrichotomy(a: seq<int>, b: seq<int>)
    ensures a == b <==> !UnitsLess(a, b) && !UnitsLess(b, a)
    ensures !(UnitsLess(a, b) && UnitsLess(b, a))
    decreases |a|
  {
    if a != [] && b != [] && a[0] == b[0] {
      UnitsLessTrichotomy(a[1..], b[1..]);
      assert a == [a[0]] + a[1..] && b == [b[0]] + b[1..];
    }
  }

  /** The order on code units is transitive. */
  lemma {:induction false} UnitsLessTransitive(a: seq<int>, b: seq<int>, c: seq<int>)
    requires UnitsLess(a, b) && UnitsLess(b, c)
    ensures UnitsLess(a, c)
    decreases |a|
  {
    if a != [] && a[0] == b[0] && b[0] == c[0] {
      UnitsLessTransitive(a[1..], b[1..], c[1..]);
    }
  }

  /** JavaScript's `a < b` on strings, which compares UTF-16 code units. */
  predicate StrLess(a: string, b: string)
    ensures StrLess(a, b) ==> a != b
  {
    UnitsLessTrichotomy(Units(a), Units(b));
    UnitsLess(Units(a), Units(b))
  }

  /** Exactly one of `a < b`, `b < a` and `a == b` holds. */
  lemma StrLessTrichotomy(a: string, b: string)
    ensures a == b <==> !StrLess(a, b) && !StrLess(b, a)
    ensures !(StrLess(a, b) && StrLess(b, a))
  {
    UnitsLessTrichotomy(Units(a), Units(b));
    if Units(a) == Units(b) {
      UnitsInjective(a, b);
    }
  }

  /** `<` on strings is transitive. */
  lemma StrLessTransitive(a: string, b: string, c: string)
    requires StrLess(a, b) && StrLess(b, c)
    ensures StrLess(a, c)
  {
    UnitsLessTransitive(Units(a), Units(b), Units(c));
  }

  /** A character above U+FFFF sorts before one in U+E000..U+FFFF, since its high surrogate
      is smaller: U+20BB7 against U+FF71. */
  lemma StrLessBySurrogate()
    ensures StrLess("\U{20BB7}", "\U{FF71}")
    ensures !StrLess("\U{FF71}", "\U{20BB7}")
  {
    assert Units("\U{20BB7}") == [0xD842, 0xDFB7];
    assert Units("\U{FF71}") == [0xFF71];
  }
}
