/** String helpers with the semantics of the Rust standard library functions
    the program calls: `str::split` on one character, `[&str]::join`,
    `str::find`, `str::contains`, `str::trim` and `{:04x}` formatting. */
module Strings {
  import opened Wrappers

  /** `s.split(c)`: the pieces between occurrences of `c`; always at least one. */
  function Split(s: string, c: char): (parts: seq<string>)
    ensures |parts| >= 1
    ensures forall i :: 0 <= i < |parts| ==> c !in parts[i]
    decreases |s|
  {
    if |s| == 0 then [""]
    else
      var rest := Split(s[1..], c);
      if s[0] == c then [""] + rest
      else [[s[0]] + rest[0]] + rest[1..]
  }

  /** `parts.join(sep)`. */
  function Join(parts: seq<string>, sep: string): string
    decreases |parts|
  {
    if |parts| == 0 then ""
    else if |parts| == 1 then parts[0]
    else parts[0] + sep + Join(parts[1..], sep)
  }

  /** Splitting on `c` and joining with `c` gives back the original text. */
  lemma {:induction false} JoinSplit(s: string, c: char)
    ensures Join(Split(s, c), [c]) == s
    decreases |s|
  {
    if |s| == 0 {
    } else {
      var rest := Split(s[1..], c);
      JoinSplit(s[1..], c);
      if s[0] == c {
        assert Split(s, c) == [""] + rest;
        assert Join([""] + rest, [c]) == "" + [c] + Join(rest, [c]);
      } else {
        var parts := Split(s, c);
        assert parts == [[s[0]] + rest[0]] + rest[1..];
        if |rest| == 1 {
          assert Join(parts, [c]) == [s[0]] + rest[0];
        } else {
          assert parts[1..] == rest[1..];
          assert Join(parts, [c]) == [s[0]] + rest[0] + [c] + Join(rest[1..], [c]);
          assert Join(rest, [c]) == rest[0] + [c] + Join(rest[1..], [c]);
        }
      }
    }
  }

  /** Joining pieces free of `c` with `c` and splitting again gives back the pieces. */
  lemma {:induction false} SplitJoin(parts: seq<string>, c: char)
    requires |parts| >= 1
    requires forall i :: 0 <= i < |parts| ==> c !in parts[i]
    ensures Split(Join(parts, [c]), c) == parts
    decreases |parts|, |parts[0]|
  {
    if |parts[0]| == 0 {
      if |parts| == 1 {
      } else {
        SplitJoin(parts[1..], c);
        var j := Join(parts, [c]);
        assert j == [c] + Join(parts[1..], [c]);
        assert j[1..] == Join(parts[1..], [c]);
        assert parts == [""] + parts[1..];
      }
    } else {
      var tail := [parts[0][1..]] + parts[1..];
      assert forall i :: 0 <= i < |tail| ==> c !in tail[i] by {
        forall i | 0 <= i < |tail| ensures c !in tail[i] {
          if i == 0 {
            assert forall k :: 0 <= k < |parts[0][1..]| ==> parts[0][1..][k] == parts[0][k + 1];
          } else {
            assert tail[i] == parts[i];
          }
        }
      }
      SplitJoin(tail, c);
      var j := Join(parts, [c]);
      assert j == [parts[0][0]] + Join(tail, [c]) by {
        if |parts| == 1 {
          assert parts[0] == [parts[0][0]] + parts[0][1..];
        } else {
          assert tail[1..] == parts[1..];
          assert parts[0] == [parts[0][0]] + parts[0][1..];
        }
      }
      assert j[0] == parts[0][0] && j[1..] == Join(tail, [c]);
      assert j[0] != c;
      var rest := Split(j[1..], c);
      assert rest == tail;
      assert Split(j, c) == [[j[0]] + rest[0]] + rest[1..];
      assert [j[0]] + rest[0] == parts[0];
      assert rest[1..] == parts[1..];
    }
  }

  /** The number of occurrences of `c` in `s`. */
  function Count(s: string, c: char): nat
    decreases |s|
  {
    if |s| == 0 then 0 else (if s[0] == c then 1 else 0) + Count(s[1..], c)
  }

  /** `split` yields one piece more than there are separators. */
  lemma {:induction false} SplitCount(s: string, c: char)
    ensures |Split(s, c)| == Count(s, c) + 1
    decreases |s|
  {
    if |s| > 0 {
      SplitCount(s[1..], c);
    }
  }

  /** `needle` occurs in `hay` at offset `k`. */
  predicate OccursAt(hay: string, needle: string, k: nat)
  {
    k + |needle| <= |hay| && hay[k..k + |needle|] == needle
  }

  /** `hay.contains(needle)`. */
  predicate Contains(hay: string, needle: string)
  {
    exists k: nat | k <= |hay| :: OccursAt(hay, needle, k)
  }

  /** `hay.find(needle)`: the offset of the first occurrence, if any. */
  function Find(hay: string, needle: string): (r: Option<nat>)
    ensures r.Some? ==> OccursAt(hay, needle, r.value)
    ensures r.Some? ==> forall k: nat :: k < r.value ==> !OccursAt(hay, needle, k)
    ensures r.None? ==> forall k: nat :: !OccursAt(hay, needle, k)
    ensures r.Some? <==> Contains(hay, needle)
  {
    FindFrom(hay, needle, 0)
  }

  function FindFrom(hay: string, needle: string, from: nat): (r: Option<nat>)
    requires from <= |hay| + 1
    ensures r.Some? ==> from <= r.value && OccursAt(hay, needle, r.value)
    ensures r.Some? ==> forall k: nat :: from <= k < r.value ==> !OccursAt(hay, needle, k)
    ensures r.None? ==> forall k: nat :: from <= k ==> !OccursAt(hay, needle, k)
    decreases |hay| + 1 - from
  {
    if from + |needle| > |hay| then None
    else if hay[from..from + |needle|] == needle then Some(from)
    else FindFrom(hay, needle, from + 1)
  }

  /** Whitespace as Rust's `char::is_whitespace` defines it (Unicode White_Space). */
  predicate IsWhitespace(ch: char)
  {
    || ('\U{9}' <= ch <= '\U{D}') || ch == ' ' || ch == '\U{85}' || ch == '\U{A0}'
    || ch == '\U{1680}' || ('\U{2000}' <= ch <= '\U{200A}') || ch == '\U{2028}'
    || ch == '\U{2029}' || ch == '\U{202F}' || ch == '\U{205F}' || ch == '\U{3000}'
  }

  function TrimStart(s: string): (r: string)
    ensures |r| <= |s| && r == s[|s| - |r|..]
    ensures |r| > 0 ==> !IsWhitespace(r[0])
    ensures forall i :: 0 <= i < |s| - |r| ==> IsWhitespace(s[i])
    decreases |s|
  {
    if |s| > 0 && IsWhitespace(s[0]) then TrimStart(s[1..]) else s
  }

  function TrimEnd(s: string): (r: string)
    ensures |r| <= |s| && r == s[..|r|]
    ensures |r| > 0 ==> !IsWhitespace(r[|r| - 1])
    ensures forall i :: |r| <= i < |s| ==> IsWhitespace(s[i])
    decreases |s|
  {
    if |s| > 0 && IsWhitespace(s[|s| - 1]) then TrimEnd(s[..|s| - 1]) else s
  }

  /** `s.trim()`: `s` without leading and trailing whitespace. */
  function Trim(s: string): (r: string)
    ensures exists a, b :: 0 <= a <= b <= |s| && r == s[a..b]
    ensures |r| > 0 ==> !IsWhitespace(r[0]) && !IsWhitespace(r[|r| - 1])
  {
    var t := TrimStart(s);
    var r := TrimEnd(t);
    assert r == s[|s| - |t|..][..|r|] == s[|s| - |t|..|s| - |t| + |r|];
    r
  }

  /** Rust's ordering of `String`s: lexicographic by character. */
  predicate Less(a: string, b: string)
    decreases |a|
  {
    |b| > 0 && (|a| == 0 || a[0] < b[0] || (a[0] == b[0] && Less(a[1..], b[1..])))
  }

  lemma {:induction false} LessIrreflexive(a: string)
    ensures !Less(a, a)
    decreases |a|
  {
    if |a| > 0 {
      LessIrreflexive(a[1..]);
    }
  }

  lemma {:induction false} LessTransitive(a: string, b: string, c: string)
    requires Less(a, b) && Less(b, c)
    ensures Less(a, c)
    decreases |a|
  {
    if |a| > 0 && a[0] == b[0] && b[0] == c[0] {
      LessTransitive(a[1..], b[1..], c[1..]);
    }
  }

  lemma {:induction false} LessTotal(a: string, b: string)
    ensures a == b || Less(a, b) || Less(b, a)
    decreases |a|
  {
    if |a| > 0 && |b| > 0 && a[0] == b[0] {
      LessTotal(a[1..], b[1..]);
      if a[1..] == b[1..] {
        assert a == [a[0]] + a[1..] && b == [b[0]] + b[1..];
      }
    }
  }

  /** One lower-case hexadecimal digit. */
  function HexDigit(d: nat): (ch: char)
    requires d < 16
  {
    if d < 10 then ('0' as int + d) as char else ('a' as int + d - 10) as char
  }

  function HexValue(ch: char): int
  {
    if '0' <= ch <= '9' then ch as int - '0' as int
    else if 'a' <= ch <= 'f' then ch as int - 'a' as int + 10
    else -1
  }

  /** `format!("{:04x}", v)` for a 16-bit value: exactly four lower-case digits. */
  function Hex4(v: nat): (r: string)
    requires v < 0x1_0000
    ensures |r| == 4
    ensures forall i :: 0 <= i < 4 ==> '0' <= r[i] <= '9' || 'a' <= r[i] <= 'f'
  {
    var low12 := v % 0x1000;
    var low8 := low12 % 0x100;
    [HexDigit(v / 0x1000), HexDigit(low12 / 0x100), HexDigit(low8 / 0x10), HexDigit(low8 % 0x10)]
  }

  /** Reads four hexadecimal digits back into a number. */
  function ParseHex4(s: string): int
    requires |s| == 4
  {
    HexValue(s[0]) * 0x1000 + HexValue(s[1]) * 0x100 + HexValue(s[2]) * 0x10 + HexValue(s[3])
  }

  lemma HexDigitValue(d: nat)
    requires d < 16
    ensures HexValue(HexDigit(d)) == d
  {
  }

  /** `Hex4` loses nothing: reading its digits back gives the value. */
  lemma Hex4RoundTrip(v: nat)
    requires v < 0x1_0000
    ensures ParseHex4(Hex4(v)) == v
  {
    var a, r1 := v / 0x1000, v % 0x1000;
    var b, r2 := r1 / 0x100, r1 % 0x100;
    var c, d := r2 / 0x10, r2 % 0x10;
    assert v == a * 0x1000 + r1 && r1 == b * 0x100 + r2 && r2 == c * 0x10 + d;
    HexDigitValue(a);
    HexDigitValue(b);
    HexDigitValue(c);
    HexDigitValue(d);
  }
}
