/** The string helpers of the `utils` namespace. Each C++ routine is a method
    that builds its result step by step as the C++ routine does, proved equal to
    a specification function; the properties are proved about the functions. */
module Utils {
  import opened Wrappers
  import opened Ascii
  import opened Numbers

  // ---------------------------------------------------------------- trim

  /** Index of the first non-whitespace character, or |s| (the forward `find_if`). */
  function FirstNonSpace(s: string): (i: nat)
    ensures i <= |s|
    ensures forall k :: 0 <= k < i ==> IsSpace(s[k])
    ensures i < |s| ==> !IsSpace(s[i])
  {
    if s != [] && IsSpace(s[0]) then 1 + FirstNonSpace(s[1..]) else 0
  }

  /** End of the last non-whitespace character at or after `lo`, or `lo`
      (the reverse `find_if`, converted back with `base()`). */
  function EndOfNonSpace(s: string, lo: nat): (j: nat)
    requires lo <= |s|
    ensures lo <= j <= |s|
    ensures forall k :: j <= k < |s| ==> IsSpace(s[k])
    ensures j > lo ==> !IsSpace(s[j - 1])
    decreases |s|
  {
    if |s| > lo && IsSpace(s[|s| - 1]) then EndOfNonSpace(s[..|s| - 1], lo) else |s|
  }

  /** `trim(s)`: what remains between the leading and the trailing whitespace. */
  function Trimmed(s: string): (r: string)
    ensures |r| <= |s|
    ensures r == [] || (!IsSpace(r[0]) && !IsSpace(r[|r| - 1]))
  {
    var i := FirstNonSpace(s);
    s[i..EndOfNonSpace(s, i)]
  }

  method Trim(s: string) returns (r: string)
    ensures r == Trimmed(s)
  {
    var i := 0;
    while i < |s| && IsSpace(s[i])
      invariant i <= |s|
      invariant forall k :: 0 <= k < i ==> IsSpace(s[k])
    {
      i := i + 1;
    }
    var j := |s|;
    while j > i && IsSpace(s[j - 1])
      invariant i <= j <= |s|
      invariant forall k :: j <= k < |s| ==> IsSpace(s[k])
    {
      j := j - 1;
    }
    FirstNonSpaceUnique(s, i);
    EndOfNonSpaceUnique(s, i, j);
    r := s[i..j];
  }

  lemma FirstNonSpaceUnique(s: string, i: nat)
    requires i <= |s|
    requires forall k :: 0 <= k < i ==> IsSpace(s[k])
    requires i < |s| ==> !IsSpace(s[i])
    ensures FirstNonSpace(s) == i
  {
    var f := FirstNonSpace(s);
    assert f < |s| ==> !IsSpace(s[f]);
    assert i < |s| ==> !IsSpace(s[i]);
  }

  lemma EndOfNonSpaceUnique(s: string, lo: nat, j: nat)
    requires lo <= j <= |s|
    requires forall k :: j <= k < |s| ==> IsSpace(s[k])
    requires j > lo ==> !IsSpace(s[j - 1])
    ensures EndOfNonSpace(s, lo) == j
  {
    var e := EndOfNonSpace(s, lo);
    assert e > lo ==> !IsSpace(s[e - 1]);
    assert j > lo ==> !IsSpace(s[j - 1]);
  }

  /** Only leading and trailing whitespace is removed: the result is the
      contiguous piece of `s` between an all-whitespace prefix and an
      all-whitespace suffix. */
  lemma TrimmedRemovesOnlyEdgeSpace(s: string)
    ensures var i := FirstNonSpace(s);
            var r := Trimmed(s);
            && i + |r| <= |s|
            && r == s[i..i + |r|]
            && (forall k :: 0 <= k < i ==> IsSpace(s[k]))
            && (forall k :: i + |r| <= k < |s| ==> IsSpace(s[k]))
  {
  }

  /** A string with no whitespace at either end is left as it is. */
  lemma TrimmedUnchanged(s: string)
    requires s == [] || (!IsSpace(s[0]) && !IsSpace(s[|s| - 1]))
    ensures Trimmed(s) == s
  {
    FirstNonSpaceUnique(s, 0);
    EndOfNonSpaceUnique(s, 0, |s|);
  }

  lemma TrimmedIdempotent(s: string)
    ensures Trimmed(Trimmed(s)) == Trimmed(s)
  {
    TrimmedUnchanged(Trimmed(s));
  }

  lemma TrimmedAllSpace(s: string)
    requires forall k :: 0 <= k < |s| ==> IsSpace(s[k])
    ensures Trimmed(s) == []
  {
    FirstNonSpaceUnique(s, |s|);
  }

  // ------------------------------------------------------------- toLower

  /** `toLower(s)`: every character passed through `tolower`. */
  function Lowered(s: string): (r: string)
    ensures |r| == |s|
    ensures forall k :: 0 <= k < |s| ==> r[k] == LowerChar(s[k])
  {
    if s == [] then [] else [LowerChar(s[0])] + Lowered(s[1..])
  }

  /** `std::transform` over a copy of the string, one character at a time. */
  method ToLower(s: string) returns (r: string)
    ensures r == Lowered(s)
  {
    var a := new char[|s|](k requires 0 <= k < |s| => s[k]);
    for i := 0 to a.Length
      invariant forall k :: 0 <= k < i ==> a[k] == LowerChar(s[k])
      invariant forall k :: i <= k < a.Length ==> a[k] == s[k]
    {
      a[i] := LowerChar(a[i]);
    }
    r := a[..];
  }

  /** Only upper-case letters change, the length is kept, and lowering twice
      is the same as lowering once. */
  lemma LoweredChangesOnlyUpper(s: string)
    ensures |Lowered(s)| == |s|
    ensures forall k :: 0 <= k < |s| && Lowered(s)[k] != s[k] ==> IsUpper(s[k])
    ensures Lowered(Lowered(s)) == Lowered(s)
  {
  }

  /** Concatenation regroups freely. */
  lemma ConcatAssoc<T>(a: seq<T>, b: seq<T>, c: seq<T>)
    ensures (a + b) + c == a + (b + c)
  {
  }

  // --------------------------------------------------------------- split

  /** Index of the first `d` in `s`, or |s|. */
  function IndexOf(s: string, d: char): (i: nat)
    ensures i <= |s|
    ensures i < |s| ==> s[i] == d
    ensures forall k :: 0 <= k < i ==> s[k] != d
  {
    if s == [] || s[0] == d then 0 else 1 + IndexOf(s[1..], d)
  }

  /** `split(s, d)`: the pieces `std::getline` extracts, so an empty last
      piece (after a final `d`, or of an empty `s`) is not produced. */
  function Pieces(s: string, d: char): (r: seq<string>)
    ensures s == [] ==> r == []
    ensures s != [] ==> r != []
    ensures forall k :: 0 <= k < |r| ==> d !in r[k]
    decreases |s|
  {
    if s == [] then []
    else
      var i := IndexOf(s, d);
      if i == |s| then [s] else [s[..i]] + Pieces(s[i + 1..], d)
  }

  /** The pieces joined back with `d` between them. */
  function Join(parts: seq<string>, d: char): string {
    if |parts| == 0 then []
    else if |parts| == 1 then parts[0]
    else parts[0] + [d] + Join(parts[1..], d)
  }

  /** The last part closes the joined text, after a delimiter when there
      are several parts. */
  lemma {:induction false} JoinLast(parts: seq<string>, d: char)
    requires |parts| >= 2
    ensures Join(parts, d) == Join(parts[..|parts| - 1], d) + [d] + parts[|parts| - 1]
  {
    if |parts| > 2 {
      JoinLast(parts[1..], d);
      assert parts[1..][..|parts| - 2] == parts[..|parts| - 1][1..];
    }
  }

  /** A character that is not the delimiter is in the joined text exactly
      when some part holds it. */
  lemma {:induction false} JoinHolds(parts: seq<string>, d: char, c: char)
    requires c != d
    ensures c in Join(parts, d) <==> exists k :: 0 <= k < |parts| && c in parts[k]
  {
    if |parts| >= 2 {
      JoinHolds(parts[1..], d, c);
      var j := Join(parts, d);
      assert j == parts[0] + [d] + Join(parts[1..], d);
      assert c in j <==> c in parts[0] || c in Join(parts[1..], d);
      if c in Join(parts[1..], d) {
        var k :| 0 <= k < |parts| - 1 && c in parts[1..][k];
        assert c in parts[k + 1];
      }
      if exists k :: 0 <= k < |parts| && c in parts[k] {
        var k :| 0 <= k < |parts| && c in parts[k];
        if k > 0 {
          assert c in parts[1..][k - 1];
        }
      }
    }
  }

  lemma PiecesAfterDelimiter(item: string, d: char, rest: string)
    requires d !in item
    ensures Pieces(item + [d] + rest, d) == [item] + Pieces(rest, d)
  {
    var s := item + [d] + rest;
    assert forall k :: 0 <= k < |item| ==> s[k] == item[k];
    assert s[|item|] == d;
    assert s[..|item|] == item;
    assert s[|item| + 1..] == rest;
  }

  lemma PiecesWithoutDelimiter(item: string, d: char)
    requires d !in item
    ensures Pieces(item, d) == if item == [] then [] else [item]
  {
  }

  /** A delimiter right after the current item closes it. */
  lemma PushPiece(s: string, d: char, item: string, i: nat, out: seq<string>)
    requires i < |s| && s[i] == d && d !in item
    requires out + Pieces(item + s[i..], d) == Pieces(s, d)
    ensures (out + [item]) + Pieces([] + s[i + 1..], d) == Pieces(s, d)
  {
    var rest := s[i + 1..];
    assert item + s[i..] == item + [d] + rest by {
      assert s[i..] == [d] + rest;
      ConcatAssoc(item, [d], rest);
    }
    PiecesAfterDelimiter(item, d, rest);
    assert [] + rest == rest;
    ConcatAssoc(out, [item], Pieces(rest, d));
  }

  /** Any other character grows the current item. */
  lemma GrowPiece(s: string, d: char, item: string, i: nat)
    requires i < |s| && s[i] != d && d !in item
    ensures item + s[i..] == (item + [s[i]]) + s[i + 1..] && d !in item + [s[i]]
  {
    assert s[i..] == [s[i]] + s[i + 1..];
    ConcatAssoc(item, [s[i]], s[i + 1..]);
  }

  /** At the end of the text, a non-empty item is the last piece. */
  lemma LastPiece(s: string, d: char, item: string, out: seq<string>)
    requires d !in item && out + Pieces(item + s[|s|..], d) == Pieces(s, d)
    ensures Pieces(s, d) == if item == [] then out else out + [item]
  {
    assert item + s[|s|..] == item;
    PiecesWithoutDelimiter(item, d);
    assert out + [] == out;
  }

  /** `std::getline` in a loop: characters gather into the current item,
      a delimiter pushes it, and a non-empty item left at the end is pushed. */
  method Split(s: string, d: char) returns (out: seq<string>)
    ensures out == Pieces(s, d)
  {
    out := [];
    var item: string := [];
    assert [] + s[0..] == s;
    for i := 0 to |s|
      invariant d !in item
      invariant out + Pieces(item + s[i..], d) == Pieces(s, d)
    {
      if s[i] == d {
        PushPiece(s, d, item, i, out);
        out := out + [item];
        item := [];
      } else {
        GrowPiece(s, d, item, i);
        item := item + [s[i]];
      }
    }
    LastPiece(s, d, item, out);
    if item != [] {
      out := out + [item];
    }
  }

  /** Joining the pieces gives back `s`, less its final delimiter if it has one. */
  lemma {:induction false} JoinPieces(s: string, d: char)
    ensures Join(Pieces(s, d), d) == if s != [] && s[|s| - 1] == d then s[..|s| - 1] else s
    decreases |s|
  {
    if s != [] {
      var i := IndexOf(s, d);
      if i < |s| {
        var t := s[i + 1..];
        if t == [] {
          assert s[..|s| - 1] == s[..i];
        } else {
          JoinPieces(t, d);
          JoinCons(s[..i], Pieces(t, d), d);
          CutAtDelimiter(s, i);
        }
      }
    }
  }

  /** Joining a part in front of a non-empty list puts a delimiter after it. */
  lemma JoinCons(a: string, parts: seq<string>, d: char)
    requires parts != []
    ensures Join([a] + parts, d) == a + [d] + Join(parts, d)
  {
    assert ([a] + parts)[1..] == parts;
  }

  /** `s` cut around position `i`, with and without its last character. */
  lemma CutAtDelimiter(s: string, i: nat)
    requires i + 1 < |s|
    ensures s == s[..i] + [s[i]] + s[i + 1..]
    ensures s[|s| - 1] == s[i + 1..][|s| - i - 2]
    ensures s[..|s| - 1] == s[..i] + [s[i]] + s[i + 1..][..|s| - i - 2]
  {
  }

  /** Splitting fields that hold no delimiter, joined with it, gives the
      fields back, except that an empty last field is lost. */
  lemma {:induction false} PiecesOfJoin(fields: seq<string>, d: char)
    requires forall k :: 0 <= k < |fields| ==> d !in fields[k]
    ensures Pieces(Join(fields, d), d)
         == if fields != [] && fields[|fields| - 1] == [] then fields[..|fields| - 1] else fields
  {
    if |fields| == 1 {
      PiecesWithoutDelimiter(fields[0], d);
    } else if |fields| > 1 {
      var rest := fields[1..];
      assert forall k :: 0 <= k < |rest| ==> d !in rest[k] by {
        forall k | 0 <= k < |rest| ensures d !in rest[k] {
          assert rest[k] == fields[k + 1];
        }
      }
      PiecesOfJoin(rest, d);
      PiecesAfterDelimiter(fields[0], d, Join(rest, d));
      ConsParts(fields);
    }
  }

  /** The first part put back in front of the others. */
  lemma ConsParts(parts: seq<string>)
    requires |parts| >= 2
    ensures [parts[0]] + parts[1..] == parts
    ensures [parts[0]] + parts[1..][..|parts| - 2] == parts[..|parts| - 1]
  {
  }

  // ------------------------------------------------- escapePipes / unescapePipes

  function EscapeChar(c: char): string {
    if c == '|' then "\\|" else if c == '\\' then "\\\\" else [c]
  }

  /** `escapePipes(s)`: each `|` becomes `\|`, each `\` becomes `\\`. */
  function Escaped(s: string): string {
    if s == [] then [] else EscapeChar(s[0]) + Escaped(s[1..])
  }

  /** `unescapePipes(s)`: `\|` and `\\` collapse to their second character; a
      `\` before anything else, or at the end, is kept as it is. */
  function Unescaped(s: string): string {
    if s == [] then []
    else if |s| >= 2 && s[0] == '\\' && (s[1] == '|' || s[1] == '\\') then [s[1]] + Unescaped(s[2..])
    else [s[0]] + Unescaped(s[1..])
  }

  method EscapePipes(s: string) returns (out: string)
    ensures out == Escaped(s)
  {
    out := [];
    for i := 0 to |s|
      invariant out == Escaped(s[..i])
    {
      EscapedSnoc(s, i);
      if s[i] == '|' {
        out := out + "\\|";
      } else if s[i] == '\\' {
        out := out + "\\\\";
      } else {
        out := out + [s[i]];
      }
    }
    assert s[..|s|] == s;
  }

  /** Escaping one more character appends its escape. */
  lemma EscapedSnoc(s: string, i: nat)
    requires i < |s|
    ensures Escaped(s[..i + 1]) == Escaped(s[..i]) + EscapeChar(s[i])
  {
    assert s[..i + 1] == s[..i] + [s[i]];
    EscapedConcat(s[..i], [s[i]]);
    assert [s[i]][1..] == [];
  }

  method UnescapePipes(s: string) returns (out: string)
    ensures out == Unescaped(s)
  {
    out := [];
    var i := 0;
    while i < |s|
      invariant i <= |s|
      invariant out + Unescaped(s[i..]) == Unescaped(s)
    {
      UnescapedFrom(s, i);
      if s[i] == '\\' && i + 1 < |s| {
        var n := s[i + 1];
        if n == '|' || n == '\\' {
          ConcatAssoc(out, [n], Unescaped(s[i + 2..]));
          out := out + [n];
          i := i + 2;
          continue;
        }
      }
      ConcatAssoc(out, [s[i]], Unescaped(s[i + 1..]));
      out := out + [s[i]];
      i := i + 1;
    }
  }


  /** One step of unescaping from position `i`. */
  lemma UnescapedFrom(s: string, i: nat)
    requires i < |s|
    ensures Unescaped(s[i..]) ==
      if i + 1 < |s| && s[i] == '\\' && (s[i + 1] == '|' || s[i + 1] == '\\')
      then [s[i + 1]] + Unescaped(s[i + 2..])
      else [s[i]] + Unescaped(s[i + 1..])
  {
    assert s[i..][1..] == s[i + 1..];
    if i + 1 < |s| {
      assert s[i..][2..] == s[i + 2..];
    }
  }

  /** Number of occurrences of `c` in `s`. */
  function Count(s: string, c: char): nat {
    if s == [] then 0 else (if s[0] == c then 1 else 0) + Count(s[1..], c)
  }

  /** Escaping works character by character and adds exactly one `\` per
      `|` and per `\`. */
  lemma {:induction false} EscapedLength(s: string)
    ensures |Escaped(s)| == |s| + Count(s, '|') + Count(s, '\\')
  {
    if s != [] {
      EscapedLength(s[1..]);
    }
  }

  lemma {:induction false} EscapedConcat(a: string, b: string)
    ensures Escaped(a + b) == Escaped(a) + Escaped(b)
  {
    if a != [] {
      assert (a + b)[1..] == a[1..] + b;
      EscapedConcat(a[1..], b);
    } else {
      assert a + b == b;
    }
  }

  /** Unescaping undoes escaping, for every string. */
  lemma UnescapeEscape(s: string)
    ensures Unescaped(Escaped(s)) == s
  {
    UnescapedAfterEscaped(s, []);
    assert Escaped(s) + [] == Escaped(s);
  }

  /** Unescaping reads an escaped text back whatever follows it. */
  lemma {:induction false} UnescapedAfterEscaped(a: string, rest: string)
    ensures Unescaped(Escaped(a) + rest) == a + Unescaped(rest)
  {
    if a == [] {
      assert Escaped(a) + rest == rest;
    } else {
      var tail := Escaped(a[1..]) + rest;
      UnescapedAfterEscaped(a[1..], rest);
      assert Escaped(a) + rest == EscapeChar(a[0]) + tail;
      UnescapedOfEscapeChar(a[0], tail);
      ConcatAssoc([a[0]], a[1..], Unescaped(rest));
      assert [a[0]] + a[1..] == a;
    }
  }

  /** One escaped character is read back as itself. */
  lemma UnescapedOfEscapeChar(c: char, tail: string)
    ensures Unescaped(EscapeChar(c) + tail) == [c] + Unescaped(tail)
  {
    var e := EscapeChar(c) + tail;
    if c == '|' || c == '\\' {
      assert e[2..] == tail;
    } else {
      assert e[1..] == tail;
    }
  }

  /** A string without `\` is not changed by unescaping. */
  lemma {:induction false} UnescapedWithoutBackslash(s: string)
    requires '\\' !in s
    ensures Unescaped(s) == s
  {
    if s != [] {
      assert s[0] in s;
      UnescapedWithoutBackslash(s[1..]);
    }
  }

  /** Escaping adds no character other than `\\`: any other character
      (a `|`, a newline) is in the escaped text exactly when it was in the
      input; and the last character is kept. */
  lemma {:induction false} EscapedKeepsCharsAndLast(s: string, c: char)
    requires c != '\\'
    ensures c in Escaped(s) <==> c in s
    ensures s != [] ==> Escaped(s) != [] && Escaped(s)[|Escaped(s)| - 1] == s[|s| - 1]
  {
    if s != [] {
      EscapedKeepsCharsAndLast(s[1..], c);
      var e := Escaped(s);
      var h := EscapeChar(s[0]);
      assert e == h + Escaped(s[1..]);
      assert c in e <==> c in h || c in Escaped(s[1..]);
      assert c in s <==> s[0] == c || c in s[1..];
    }
  }

  // ------------------------------------------------------------------ dates

  /** The checks of `isValidDateYYYYMMDD`: `YYYY-MM-DD` with digits, a year
      in 1900..3000, a month in 1..12 and a day in 1..31 (the length of the
      month is not consulted). */
  predicate IsValidDate(s: string) {
    && |s| == 10
    && s[4] == '-' && s[7] == '-'
    && (forall k :: 0 <= k < 10 && k != 4 && k != 7 ==> IsDigit(s[k]))
    && 1900 <= DecimalValue(s[..4]) <= 3000
    && 1 <= DecimalValue(s[5..7]) <= 12
    && 1 <= DecimalValue(s[8..]) <= 31
  }

  method IsValidDateYYYYMMDD(s: string) returns (ok: bool)
    ensures ok == IsValidDate(s)
  {
    if |s| != 10 {
      return false;
    }
    if s[4] != '-' || s[7] != '-' {
      return false;
    }
    for i := 0 to |s|
      invariant forall k :: 0 <= k < i && k != 4 && k != 7 ==> IsDigit(s[k])
    {
      if i == 4 || i == 7 {
        continue;
      }
      if !IsDigit(s[i]) {
        return false;
      }
    }
    FixedWidthDigits(s[..4]);
    FixedWidthDigits(s[5..7]);
    FixedWidthDigits(s[8..]);
    var y := StoI(s[..4]).value;
    var m := StoI(s[5..7]).value;
    var d := StoI(s[8..]).value;
    if y < 1900 || y > 3000 {
      return false;
    }
    if m < 1 || m > 12 {
      return false;
    }
    if d < 1 || d > 31 {
      return false;
    }
    return true;
  }

  /** Up to four digits always fit an `int`, so `stoi` cannot fail on them. */
  lemma FixedWidthDigits(ds: string)
    requires 1 <= |ds| <= 4 && forall k :: 0 <= k < |ds| ==> IsDigit(ds[k])
    ensures StoI(ds) == Some(DecimalValue(ds))
  {
    DecimalValueBelow(ds);
    StoIOfDigits(ds);
  }

  lemma {:induction false} DecimalValueBelow(ds: string)
    requires |ds| <= 4 && forall k :: 0 <= k < |ds| ==> IsDigit(ds[k])
    ensures 0 <= DecimalValue(ds) < 10000
    ensures |ds| <= 3 ==> DecimalValue(ds) < 1000
    ensures |ds| <= 2 ==> DecimalValue(ds) < 100
    ensures |ds| <= 1 ==> DecimalValue(ds) < 10
  {
    if ds != [] {
      DecimalValueBelow(ds[..|ds| - 1]);
    }
  }

  /** `n` written with exactly `width` digits, zero-padded. */
  function Padded(n: nat, width: nat): (r: string)
    ensures |r| == width && forall k :: 0 <= k < width ==> IsDigit(r[k])
  {
    if width == 0 then [] else Padded(n / 10, width - 1) + [DigitChar(n % 10)]
  }

  lemma {:induction false} DecimalValueOfPadded(n: nat, width: nat, bound: nat)
    requires bound == Pow10(width) && n < bound
    ensures DecimalValue(Padded(n, width)) == n
  {
    if width > 0 {
      var p := Padded(n, width);
      assert p[..|p| - 1] == Padded(n / 10, width - 1);
      DecimalValueOfPadded(n / 10, width - 1, Pow10(width - 1));
    }
  }

  function Pow10(k: nat): nat {
    if k == 0 then 1 else 10 * Pow10(k - 1)
  }

  /** The date written as `YYYY-MM-DD` with zero padding. */
  function DateString(y: nat, m: nat, d: nat): string {
    Padded(y, 4) + "-" + Padded(m, 2) + "-" + Padded(d, 2)
  }

  /** The checker accepts a written-out date exactly when its year, month
      and day are in range; it does not know month lengths. */
  lemma IsValidDateOfDateString(y: nat, m: nat, d: nat)
    requires y < 10000 && m < 100 && d < 100
    ensures IsValidDate(DateString(y, m, d)) <==> 1900 <= y <= 3000 && 1 <= m <= 12 && 1 <= d <= 31
  {
    var s := DateString(y, m, d);
    assert s[..4] == Padded(y, 4);
    assert s[5..7] == Padded(m, 2);
    assert s[8..] == Padded(d, 2);
    DecimalValueOfPadded(y, 4, Pow10(4));
    DecimalValueOfPadded(m, 2, Pow10(2));
    DecimalValueOfPadded(d, 2, Pow10(2));
    assert forall k :: 0 <= k < 10 && k != 4 && k != 7 ==> IsDigit(s[k]);
  }

  /** February 31st passes the check. */
  lemma NoMonthLengthCheck()
    ensures IsValidDate("2026-02-31")
  {
    IsValidDateOfDateString(2026, 2, 31);
    assert DateString(2026, 2, 31) == "2026-02-31";
  }
}
