/** The java.lang.String operations the parser relies on: `trim`,
    `replaceAll("\\s+", " ")`, `split`, `replace` of one character and an
    ASCII `toLowerCase`. A Java string is a sequence of UTF-16 code units;
    here it is a `string`, a sequence of Unicode scalar values. The two
    differ only for characters outside the Basic Multilingual Plane, and
    none of their halves is trimmable, whitespace, a quote, a comma or an
    ASCII letter, so no operation below treats them differently. */
module Text {

  /** `String.trim` removes every code unit up to and including U+0020. */
  predicate IsTrimmable(c: char) { c <= ' ' }

  /** The regular-expression class `\s`: space, tab, line feed, vertical tab,
      form feed and carriage return (U+0009 to U+000D and U+0020). */
  predicate IsSpace(c: char) { c == ' ' || '\t' <= c <= '\r' }

  // ---------------------------------------------------------------- trim

  /** Index of the first code unit `trim` keeps, scanning up from `from`. */
  function KeepFrom(s: string, from: nat): (k: nat)
    requires from <= |s|
    ensures from <= k <= |s|
    ensures forall i | from <= i < k :: IsTrimmable(s[i])
    ensures k < |s| ==> !IsTrimmable(s[k])
    decreases |s| - from
  {
    if from < |s| && IsTrimmable(s[from]) then KeepFrom(s, from + 1) else from
  }

  /** One past the last code unit `trim` keeps, scanning down from `upto` but
      never below `st`. */
  function KeepTo(s: string, st: nat, upto: nat): (k: nat)
    requires st <= upto <= |s|
    ensures st <= k <= upto
    ensures forall i | k <= i < upto :: IsTrimmable(s[i])
    ensures st < k ==> !IsTrimmable(s[k - 1])
    decreases upto
  {
    if st < upto && IsTrimmable(s[upto - 1]) then KeepTo(s, st, upto - 1) else upto
  }

  /** `s.trim()`: what lies between the leading and the trailing trimmable
      code units. */
  function Trim(s: string): string
  {
    var st := KeepFrom(s, 0);
    s[st..KeepTo(s, st, |s|)]
  }

  /** The trimmed string is the slice of `s` left once a trimmable prefix
      and a trimmable suffix are cut off. It is empty exactly when every code
      unit is trimmable; otherwise it neither starts nor ends with one, so
      the cut prefix and suffix are the longest possible. A string with
      non-trimmable ends is its own trim. */
  lemma TrimShape(s: string)
    ensures var r := Trim(s);
      (exists a, b | 0 <= a <= b <= |s| ::
         r == s[a..b] &&
         (forall i | 0 <= i < a :: IsTrimmable(s[i])) &&
         (forall i | b <= i < |s| :: IsTrimmable(s[i]))) &&
      (r == [] <==> forall i | 0 <= i < |s| :: IsTrimmable(s[i])) &&
      (r != [] ==> !IsTrimmable(r[0]) && !IsTrimmable(r[|r| - 1])) &&
      (forall c | c in r :: c in s) &&
      ((s == [] || (!IsTrimmable(s[0]) && !IsTrimmable(s[|s| - 1]))) ==> r == s)
  {
    var st := KeepFrom(s, 0);
    var en := KeepTo(s, st, |s|);
    assert Trim(s) == s[st..en];
    assert forall i | 0 <= i < en - st :: s[st..en][i] == s[st + i];
  }

  // ------------------------------------------------------- replaceAll \s+

  /** A string of `\s` code units only. */
  predicate AllSpace(s: string)
  {
    forall i | 0 <= i < |s| :: IsSpace(s[i])
  }

  /** What is left of `s` once a match of `\s+` at its start (if any) has
      been consumed. */
  function SkipSpaces(s: string): (r: string)
    ensures |r| <= |s|
    decreases |s|
  {
    if s != [] && IsSpace(s[0]) then SkipSpaces(s[1..]) else s
  }

  /** The skipped part is a prefix of `\s` units as long as possible: what is
      left is a suffix of `s` that does not start with `\s`, and nothing is
      left exactly when `s` is all `\s`. */
  lemma {:induction false} SkipSpacesShape(s: string)
    ensures var r := SkipSpaces(s);
      r == s[|s| - |r|..] &&
      (r != [] ==> !IsSpace(r[0])) &&
      (r == [] <==> AllSpace(s))
    decreases |s|
  {
    if s != [] && IsSpace(s[0]) {
      var t := s[1..];
      SkipSpacesShape(t);
      assert s[|s| - |SkipSpaces(t)|..] == t[|t| - |SkipSpaces(t)|..];
      AllSpaceTail(s);
    } else if s != [] {
      assert !AllSpace(s);
    }
  }

  /** A string that starts with `\s` is all `\s` exactly when its tail is. */
  lemma AllSpaceTail(s: string)
    requires s != [] && IsSpace(s[0])
    ensures AllSpace(s) <==> AllSpace(s[1..])
  {
    if AllSpace(s[1..]) {
      forall i | 0 < i < |s| ensures IsSpace(s[i]) {
        assert s[i] == s[1..][i - 1];
      }
    }
    if AllSpace(s) {
      forall i | 0 <= i < |s| - 1 ensures IsSpace(s[1..][i]) {
        assert s[1..][i] == s[i + 1];
      }
    }
  }

  /** `s.replaceAll("\\s+", " ")`: every maximal run of `\s` code units
      becomes one space; everything else is kept in order. */
  function Collapse(s: string): string
    decreases |s|
  {
    if s == [] then []
    else if IsSpace(s[0]) then [' '] + Collapse(SkipSpaces(s[1..]))
    else [s[0]] + Collapse(s[1..])
  }

  /** After the collapse the only `\s` units are spaces, no two spaces are
      adjacent, the result is no longer than `s` and empty only when `s` is,
      and it starts (ends) with `\s` exactly when `s` does. */
  lemma CollapseShape(s: string)
    ensures var r := Collapse(s);
      |r| <= |s| &&
      (r == [] <==> s == []) &&
      (forall i | 0 <= i < |r| :: IsSpace(r[i]) ==> r[i] == ' ') &&
      (forall i, j | 0 <= i && j == i + 1 < |r| :: !(r[i] == ' ' && r[j] == ' ')) &&
      (s != [] ==> (IsSpace(r[0]) <==> IsSpace(s[0]))) &&
      (s != [] ==> (IsSpace(r[|r| - 1]) <==> IsSpace(s[|s| - 1])))
  {
    CollapseEnds(s);
    CollapseSpaces(s);
  }

  /** The first step of the collapse: the unit it writes and what it goes on
      with. */
  lemma CollapseStep(s: string) returns (h: char, u: string)
    requires s != []
    ensures Collapse(s) == [h] + Collapse(u)
    ensures IsSpace(h) <==> IsSpace(s[0])
    ensures IsSpace(h) ==> h == ' '
    ensures |u| < |s| && u == s[|s| - |u|..]
    ensures u != [] && IsSpace(h) ==> !IsSpace(u[0])
    ensures u == [] && IsSpace(h) ==> IsSpace(s[|s| - 1])
  {
    var t := s[1..];
    if IsSpace(s[0]) {
      h, u := ' ', SkipSpaces(t);
      SkipSpacesShape(t);
      if u == [] && |s| > 1 {
        assert s[|s| - 1] == t[|t| - 1];
      }
    } else {
      h, u := s[0], t;
    }
  }

  /** Length, emptiness and the two ends of the collapse. */
  lemma {:induction false} CollapseEnds(s: string)
    ensures var r := Collapse(s);
      |r| <= |s| &&
      (r == [] <==> s == []) &&
      (s != [] ==> (IsSpace(r[0]) <==> IsSpace(s[0]))) &&
      (s != [] ==> (IsSpace(r[|r| - 1]) <==> IsSpace(s[|s| - 1])))
    decreases |s|
  {
    if s != [] {
      var h, u := CollapseStep(s);
      CollapseEnds(u);
      var r, r' := Collapse(s), Collapse(u);
      if u != [] {
        assert r[|r| - 1] == r'[|r'| - 1];
        assert u[|u| - 1] == s[|s| - 1];
      }
    }
  }

  /** The only `\s` units of the collapse are spaces, and no two of them are
      adjacent. */
  lemma {:induction false} CollapseSpaces(s: string)
    ensures var r := Collapse(s);
      (forall i | 0 <= i < |r| :: IsSpace(r[i]) ==> r[i] == ' ') &&
      (forall i, j | 0 <= i && j == i + 1 < |r| :: !(r[i] == ' ' && r[j] == ' '))
    decreases |s|
  {
    if s != [] {
      var h, u := CollapseStep(s);
      CollapseSpaces(u);
      CollapseEnds(u);
      var r, r' := Collapse(s), Collapse(u);
      forall i | 0 <= i < |r| ensures IsSpace(r[i]) ==> r[i] == ' ' {
        if i > 0 { assert r[i] == r'[i - 1]; }
      }
      forall i, j | 0 <= i && j == i + 1 < |r| ensures !(r[i] == ' ' && r[j] == ' ') {
        if i > 0 {
          assert r[i] == r'[i - 1] && r[j] == r'[j - 1];
        } else {
          assert r[j] == r'[0];
        }
      }
    }
  }

  lemma AppendAssoc(x: string, y: string, z: string)
    ensures x + (y + z) == (x + y) + z
  {
  }

  /** Skipping the leading run of a concatenation: the run ends inside `t`
      when `t` holds a unit outside `\s`, and otherwise it goes on into `b`. */
  lemma {:induction false} SkipSpacesAppend(t: string, b: string)
    ensures !AllSpace(t) ==> SkipSpaces(t + b) == SkipSpaces(t) + b
    ensures AllSpace(t) ==> SkipSpaces(t + b) == SkipSpaces(b)
  {
    if t == [] {
      assert t + b == b;
    } else {
      assert (t + b)[0] == t[0] && (t + b)[1..] == t[1..] + b;
      if IsSpace(t[0]) {
        SkipSpacesAppend(t[1..], b);
        AllSpaceTail(t);
      } else {
        assert !AllSpace(t);
      }
    }
  }

  /** The collapse of a single unit outside `\s` is that unit, and the
      collapse of a non-empty run of `\s` is one space. */
  lemma CollapseAtoms(s: string)
    ensures |s| == 1 && !IsSpace(s[0]) ==> Collapse(s) == s
    ensures s != [] && AllSpace(s) ==> Collapse(s) == " "
  {
    if s != [] && AllSpace(s) {
      AllSpaceTail(s);
      SkipSpacesShape(s[1..]);
    }
  }

  /** The collapse works piece by piece when the pieces do not cut a run of
      `\s` in two. Any string is a concatenation of maximal runs and single
      other units, so with `CollapseAtoms` this fixes the result: every
      unit outside `\s` is kept in order, and each maximal run becomes one
      space. */
  lemma {:induction false} CollapseAppend(a: string, b: string)
    requires a == [] || b == [] || !IsSpace(a[|a| - 1]) || !IsSpace(b[0])
    ensures Collapse(a + b) == Collapse(a) + Collapse(b)
    decreases |a|
  {
    if a == [] {
      assert a + b == b;
    } else if b == [] {
      assert a + b == a;
    } else {
      var t := a[1..];
      assert (a + b)[0] == a[0] && (a + b)[1..] == t + b;
      if !IsSpace(a[0]) {
        assert t == [] || t[|t| - 1] == a[|a| - 1];
        CollapseAppend(t, b);
        AppendAssoc([a[0]], Collapse(t), Collapse(b));
      } else {
        SkipSpacesAppend(t, b);
        SkipSpacesShape(t);
        if AllSpace(t) {
          assert IsSpace(a[|a| - 1]) by {
            if |a| > 1 { assert a[|a| - 1] == t[|t| - 1]; }
          }
          assert SkipSpaces(b) == b;
        } else {
          var u := SkipSpaces(t);
          assert u[|u| - 1] == t[|t| - 1] == a[|a| - 1];
          CollapseAppend(u, b);
          AppendAssoc(" ", Collapse(u), Collapse(b));
        }
      }
    }
  }

  /** A reference for the collapse that reads `s` one unit at a time:
      `inRun` says whether the unit before was `\s`. A `\s` unit that starts
      a run writes one space, one inside a run writes nothing, and every other
      unit is copied. */
  function Squeeze(s: string, inRun: bool): string
    decreases |s|
  {
    if s == [] then []
    else if IsSpace(s[0]) then (if inRun then [] else " ") + Squeeze(s[1..], true)
    else [s[0]] + Squeeze(s[1..], false)
  }

  /** Inside a run, the scanner writes nothing until the run ends. */
  lemma {:induction false} SqueezeInRun(s: string)
    ensures Squeeze(s, true) == Squeeze(SkipSpaces(s), false)
    decreases |s|
  {
    if s != [] {
      if IsSpace(s[0]) {
        SqueezeInRun(s[1..]);
        assert Squeeze(s, true) == [] + Squeeze(s[1..], true);
      }
    }
  }

  /** `replaceAll("\\s+", " ")` agrees with the one-unit-at-a-time scanner:
      each maximal run of `\s` becomes one space and every other unit is
      kept, in order. */
  lemma {:induction false} CollapseIsSqueeze(s: string)
    ensures Collapse(s) == Squeeze(s, false)
    decreases |s|
  {
    if s != [] {
      if IsSpace(s[0]) {
        var u := SkipSpaces(s[1..]);
        CollapseIsSqueeze(u);
        SqueezeInRun(s[1..]);
      } else {
        CollapseIsSqueeze(s[1..]);
      }
    }
  }

  /** The units of `s` outside `\s`, in order. */
  function NonSpace(s: string): string
    decreases |s|
  {
    if s == [] then []
    else if IsSpace(s[0]) then NonSpace(s[1..])
    else [s[0]] + NonSpace(s[1..])
  }

  lemma {:induction false} SqueezeNonSpace(s: string, inRun: bool)
    ensures NonSpace(Squeeze(s, inRun)) == NonSpace(s)
    decreases |s|
  {
    if s != [] {
      var h := if IsSpace(s[0]) then (if inRun then [] else " ") else [s[0]];
      var next := IsSpace(s[0]);
      SqueezeNonSpace(s[1..], next);
      NonSpaceAppend(h, Squeeze(s[1..], next));
    }
  }

  lemma {:induction false} NonSpaceAppend(a: string, b: string)
    ensures NonSpace(a + b) == NonSpace(a) + NonSpace(b)
    decreases |a|
  {
    if a == [] {
      assert a + b == b;
    } else {
      assert (a + b)[0] == a[0] && (a + b)[1..] == a[1..] + b;
      NonSpaceAppend(a[1..], b);
    }
  }

  /** The collapse keeps exactly the units outside `\s`, in their order. */
  lemma CollapseKeepsNonSpace(s: string)
    ensures NonSpace(Collapse(s)) == NonSpace(s)
  {
    CollapseIsSqueeze(s);
    SqueezeNonSpace(s, false);
  }

  // --------------------------------------------------------------- split

  /** The two patterns the parser passes to `String.split`: a single space,
      and `,(?=(?:[^"]*"[^"]*")*[^"]*$)`, a comma followed by an even number
      of double quotes up to the end of the line. */
  datatype Delimiter = Space | UnquotedComma

  function DelimiterChar(d: Delimiter): char
  {
    match d
    case Space => ' '
    case UnquotedComma => ','
  }

  /** Number of occurrences of `c` in `s`. */
  function Count(s: string, c: char): nat
  {
    if s == [] then 0 else (if s[0] == c then 1 else 0) + Count(s[1..], c)
  }

  lemma {:induction false} CountAppend(a: string, b: string, c: char)
    ensures Count(a + b, c) == Count(a, c) + Count(b, c)
  {
    if a == [] {
      assert a + b == b;
    } else {
      assert (a + b)[0] == a[0] && (a + b)[1..] == a[1..] + b;
      CountAppend(a[1..], b, c);
    }
  }

  lemma {:induction false} CountAbsent(s: string, c: char)
    requires c !in s
    ensures Count(s, c) == 0
  {
    if s != [] {
      CountAbsent(s[1..], c);
    }
  }

  /** Index of the first `c` in `s`. */
  function FirstIndex(s: string, c: char): (k: nat)
    requires c in s
    ensures k < |s| && s[k] == c && c !in s[..k]
  {
    if s[0] == c then 0 else 1 + FirstIndex(s[1..], c)
  }

  predicate EvenQuotes(s: string) { Count(s, '"') % 2 == 0 }

  /** Whether a match of the delimiter starts at the first code unit of `t`,
      where `t` is the rest of the line from that position on. Both patterns
      match one code unit, and what the comma's look-ahead inspects is `t`
      itself, so the decision depends on `t` alone. */
  predicate DelimiterAt(d: Delimiter, t: string)
  {
    |t| > 0 && t[0] == DelimiterChar(d) &&
    match d
    case Space => true
    case UnquotedComma => EvenQuotes(t[1..])
  }

  /** Number of delimiter matches in `t`. */
  function DelimiterCount(t: string, d: Delimiter): nat
  {
    if t == [] then 0 else (if DelimiterAt(d, t) then 1 else 0) + DelimiterCount(t[1..], d)
  }

  /** The pieces of `t` between delimiter matches, empty pieces included:
      the regular expression's result before `split` drops trailing empty
      strings. */
  function RawFields(t: string, d: Delimiter): (fs: seq<string>)
    ensures |fs| >= 1
  {
    if t == [] then [[]]
    else
      var rest := RawFields(t[1..], d);
      if DelimiterAt(d, t) then [[]] + rest else [[t[0]] + rest[0]] + rest[1..]
  }

  /** There is one more piece than there are delimiter matches. */
  lemma {:induction false} RawFieldsLength(t: string, d: Delimiter)
    ensures |RawFields(t, d)| == 1 + DelimiterCount(t, d)
  {
    if t != [] {
      RawFieldsLength(t[1..], d);
    }
  }

  /** `fs` without its trailing empty strings. */
  function DropTrailingEmpty(fs: seq<string>): (r: seq<string>)
    ensures |r| <= |fs| && r == fs[..|r|]
    ensures forall i | |r| <= i < |fs| :: fs[i] == []
    ensures r != [] ==> r[|r| - 1] != []
  {
    if fs != [] && fs[|fs| - 1] == [] then DropTrailingEmpty(fs[..|fs| - 1]) else fs
  }

  /** `s.split(pattern)` with limit 0: when the pattern does not match, the
      whole string is the one field (even the empty string); otherwise the
      pieces between matches, with trailing empty pieces removed. */
  function Split(s: string, d: Delimiter): seq<string>
  {
    var fs := RawFields(s, d);
    if |fs| == 1 then fs else DropTrailingEmpty(fs)
  }

  /** The fields put back together, `sep` between consecutive fields. */
  function Join(fs: seq<string>, sep: char): string
  {
    if |fs| == 0 then [] else if |fs| == 1 then fs[0] else fs[0] + [sep] + Join(fs[1..], sep)
  }

  /** `s.replace(String.valueOf(c), "")`: `s` with every `c` removed. */
  function RemoveAll(s: string, c: char): string
  {
    if s == [] then []
    else if s[0] == c then RemoveAll(s[1..], c)
    else [s[0]] + RemoveAll(s[1..], c)
  }

  /** No `c` is left, exactly the occurrences of `c` are gone, nothing new
      appears, and a string without `c` is unchanged. */
  lemma {:induction false} RemoveAllShape(s: string, c: char)
    ensures var r := RemoveAll(s, c);
      c !in r &&
      |r| == |s| - Count(s, c) &&
      (forall x | x in r :: x in s) &&
      (c !in s ==> r == s) &&
      (|s| == 1 ==> r == if s[0] == c then [] else s)
  {
    if s != [] {
      RemoveAllShape(s[1..], c);
    }
  }

  /** Removal works piece by piece: the result for `a + b` is the result for
      `a` followed by the result for `b`. With the single-unit case above,
      this fixes the result: every other unit is kept, in order. */
  lemma {:induction false} RemoveAllAppend(a: string, b: string, c: char)
    ensures RemoveAll(a + b, c) == RemoveAll(a, c) + RemoveAll(b, c)
  {
    if a == [] {
      assert a + b == b;
    } else {
      var t := a[1..];
      assert (a + b)[0] == a[0] && (a + b)[1..] == t + b;
      RemoveAllAppend(t, b, c);
      if a[0] != c {
        assert RemoveAll(a + b, c) == [a[0]] + RemoveAll(t + b, c);
        assert [a[0]] + (RemoveAll(t, c) + RemoveAll(b, c)) == ([a[0]] + RemoveAll(t, c)) + RemoveAll(b, c);
      }
    }
  }

  // ---------------------------------------------------------- toLowerCase

  function LowerChar(c: char): char
  {
    if 'A' <= c <= 'Z' then (c as int + 32) as char else c
  }

  /** `s.toLowerCase()` restricted to ASCII letters. */
  function ToLower(s: string): string
  {
    seq(|s|, i requires 0 <= i < |s| => LowerChar(s[i]))
  }

  /** A keyword spelt in lower-case ASCII letters is matched by exactly the
      strings that spell it letter by letter in either case. */
  lemma ToLowerMatchesKeyword(s: string, keyword: string)
    requires forall i | 0 <= i < |keyword| :: 'a' <= keyword[i] <= 'z'
    ensures ToLower(s) == keyword <==>
      |s| == |keyword| &&
      forall i | 0 <= i < |s| :: s[i] == keyword[i] || s[i] as int == keyword[i] as int - 32
  {
    if ToLower(s) == keyword {
      forall i | 0 <= i < |s|
        ensures s[i] == keyword[i] || s[i] as int == keyword[i] as int - 32
      {
        assert ToLower(s)[i] == LowerChar(s[i]);
      }
    }
    if |s| == |keyword| &&
       forall i | 0 <= i < |s| :: s[i] == keyword[i] || s[i] as int == keyword[i] as int - 32
    {
      forall i | 0 <= i < |s| ensures ToLower(s)[i] == keyword[i] {
        assert LowerChar(s[i]) == keyword[i];
      }
    }
  }

  // ------------------------------------------------------ split and join

  /** Putting the raw fields back together with the delimiter character gives
      the original string: `split` loses nothing but the delimiters. */
  lemma {:induction false} RawFieldsJoin(t: string, d: Delimiter)
    ensures Join(RawFields(t, d), DelimiterChar(d)) == t
  {
    if t != [] {
      var rest := RawFields(t[1..], d);
      RawFieldsJoin(t[1..], d);
      if DelimiterAt(d, t) {
        assert RawFields(t, d) == [[]] + rest;
        assert ([[]] + rest)[1..] == rest;
        assert t == [t[0]] + t[1..];
      } else {
        var fs := RawFields(t, d);
        assert fs == [[t[0]] + rest[0]] + rest[1..];
        if |rest| == 1 {
          assert fs == [[t[0]] + rest[0]];
        } else {
          assert fs[1..] == rest[1..];
          assert Join(rest, DelimiterChar(d)) == rest[0] + [DelimiterChar(d)] + Join(rest[1..], DelimiterChar(d));
        }
        assert t == [t[0]] + t[1..];
      }
    }
  }

  /** No raw field of a split on spaces contains a space, and when the
      string has no `\s` code unit other than the space, no field contains a
      `\s` code unit at all. */
  lemma {:induction false} SpaceFieldsHaveNoSpace(t: string)
    requires forall i | 0 <= i < |t| :: IsSpace(t[i]) ==> t[i] == ' '
    ensures forall f, j | f in RawFields(t, Space) && 0 <= j < |f| :: !IsSpace(f[j])
  {
    if t != [] {
      SpaceFieldsHaveNoSpace(t[1..]);
      var rest := RawFields(t[1..], Space);
      if !DelimiterAt(Space, t) {
        var f0 := [t[0]] + rest[0];
        assert rest[0] in rest;
        forall j | 0 <= j < |f0| ensures !IsSpace(f0[j]) {
          if j > 0 { assert f0[j] == rest[0][j - 1]; }
        }
        forall f | f in rest[1..] ensures f in rest { }
      }
    }
  }

  /** Splitting on spaces a string that neither starts nor ends with a space
      and has no two spaces in a row gives only non-empty fields. */
  lemma {:induction false} SpaceFieldsNonEmpty(t: string)
    requires t != [] && t[0] != ' ' && t[|t| - 1] != ' '
    requires forall i, j | 0 <= i && j == i + 1 < |t| :: !(t[i] == ' ' && t[j] == ' ')
    ensures forall f | f in RawFields(t, Space) :: f != []
  {
    var rest := RawFields(t[1..], Space);
    if |t| > 1 {
      var u := t[1..];
      if u[0] == ' ' {
        // the space is the last one or is followed by a non-space
        assert |u| > 1;
        SpaceFieldsNonEmpty(u[1..]);
        assert rest == [[]] + RawFields(u[1..], Space);
        forall f | f in rest[1..] ensures f != [] {
          assert f in RawFields(u[1..], Space);
        }
      } else {
        SpaceFieldsNonEmpty(u);
        forall f | f in rest[1..] ensures f != [] { assert f in rest; }
      }
    }
  }

  /** The split of a collapsed, trimmed line: non-empty fields free of `\s`
      that join back, with single spaces, into that line. */
  lemma SplitCollapsed(t: string)
    requires t != [] && !IsSpace(t[0]) && !IsSpace(t[|t| - 1])
    ensures var fs := Split(Collapse(t), Space);
      |fs| > 0 &&
      (forall f | f in fs :: f != [] && forall j | 0 <= j < |f| :: !IsSpace(f[j])) &&
      Join(fs, ' ') == Collapse(t)
  {
    var c := Collapse(t);
    CollapseShape(t);
    var raw := RawFields(c, Space);
    SpaceFieldsHaveNoSpace(c);
    SpaceFieldsNonEmpty(c);
    RawFieldsJoin(c, Space);
    assert raw[|raw| - 1] in raw;
    assert Split(c, Space) == raw;
  }

  /** A string whose only `\s` code units are single spaces is left as it is
      by the collapse. */
  lemma {:induction false} CollapseKeeps(s: string)
    requires forall i | 0 <= i < |s| :: IsSpace(s[i]) ==> s[i] == ' '
    requires forall i, j | 0 <= i && j == i + 1 < |s| :: !(IsSpace(s[i]) && IsSpace(s[j]))
    ensures Collapse(s) == s
  {
    if s != [] {
      var t := s[1..];
      forall i | 0 <= i < |t| ensures IsSpace(t[i]) ==> t[i] == ' ' {
        assert t[i] == s[i + 1];
      }
      forall i, j | 0 <= i && j == i + 1 < |t| ensures !(IsSpace(t[i]) && IsSpace(t[j])) {
        assert t[i] == s[i + 1] && t[j] == s[j + 1];
      }
      CollapseKeeps(t);
      if IsSpace(s[0]) {
        assert t == [] || !IsSpace(t[0]) by {
          if t != [] { assert t[0] == s[1]; }
        }
        assert SkipSpaces(t) == t;
      }
      assert s == [s[0]] + t;
    }
  }

  /** Collapsing twice is collapsing once. */
  lemma CollapseIdempotent(s: string)
    ensures Collapse(Collapse(s)) == Collapse(s)
  {
    CollapseShape(s);
    CollapseKeeps(Collapse(s));
  }
}
