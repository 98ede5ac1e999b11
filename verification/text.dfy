/**
 * The pieces of JavaScript string behaviour the widget relies on:
 * `String.prototype.trim`, `String.prototype.split` on one character, and
 * the decimal digits `Number` reads.
 */
module Text {

  import opened Wrappers
  import opened Seqs

  predicate IsDigit(c: char) {
    '0' <= c <= '9'
  }

  function DigitValue(c: char): (d: nat)
    requires IsDigit(c)
    ensures d <= 9
  {
    c as int - '0' as int
  }

  function DigitChar(d: nat): (c: char)
    requires d <= 9
    ensures IsDigit(c) && DigitValue(c) == d
  {
    ('0' as int + d) as char
  }

  predicate IsDigits(s: string) {
    forall i :: 0 <= i < |s| ==> IsDigit(s[i])
  }

  /**
   * The characters ECMAScript's `trim` removes: the WhiteSpace production
   * (tab, vertical tab, form feed, space, no-break space, byte order mark and
   * every Zs space separator) and the LineTerminator production (LF, CR,
   * LINE SEPARATOR, PARAGRAPH SEPARATOR).
   */
  predicate IsTrimmable(c: char) {
    var n := c as int;
    || n == 0x09 || n == 0x0A || n == 0x0B || n == 0x0C || n == 0x0D
    || n == 0x20 || n == 0xA0 || n == 0x1680
    || (0x2000 <= n <= 0x200A)
    || n == 0x2028 || n == 0x2029 || n == 0x202F || n == 0x205F
    || n == 0x3000 || n == 0xFEFF
  }

  /** Drops leading trimmable characters; what is left does not start with one. */
  function TrimStart(s: string): (r: string)
    ensures |r| <= |s|
    ensures r == [] || !IsTrimmable(r[0])
  {
    if |s| > 0 && IsTrimmable(s[0]) then TrimStart(s[1..]) else s
  }

  /** Drops trailing trimmable characters; what is left does not end with one. */
  function TrimEnd(s: string): (r: string)
    ensures |r| <= |s|
    ensures r == [] || !IsTrimmable(r[|r| - 1])
  {
    if |s| > 0 && IsTrimmable(s[|s| - 1]) then TrimEnd(s[..|s| - 1]) else s
  }

  /** `TrimStart` keeps the suffix after the first character that is not trimmable. */
  lemma {:induction false} TrimStartSuffix(s: string)
    ensures TrimStart(s) == s[|s| - |TrimStart(s)|..]
    ensures forall i :: 0 <= i < |s| - |TrimStart(s)| ==> IsTrimmable(s[i])
  {
    if |s| > 0 && IsTrimmable(s[0]) {
      TrimStartSuffix(s[1..]);
      assert s[1..][|s| - 1 - |TrimStart(s)|..] == s[|s| - |TrimStart(s)|..];
      forall i | 0 < i < |s| - |TrimStart(s)|
        ensures IsTrimmable(s[i])
      {
        assert s[i] == s[1..][i - 1];
      }
    }
  }

  /** `TrimEnd` keeps the prefix up to the last character that is not trimmable. */
  lemma {:induction false} TrimEndPrefix(s: string)
    ensures TrimEnd(s) == s[..|TrimEnd(s)|]
    ensures forall i :: |TrimEnd(s)| <= i < |s| ==> IsTrimmable(s[i])
  {
    if |s| > 0 && IsTrimmable(s[|s| - 1]) {
      var p := s[..|s| - 1];
      TrimEndPrefix(p);
      assert p[..|TrimEnd(s)|] == s[..|TrimEnd(s)|];
      forall i | |TrimEnd(s)| <= i < |s| - 1
        ensures IsTrimmable(s[i])
      {
        assert s[i] == p[i];
      }
    }
  }

  /** `r` sits in `s` at offset `k` and everything of `s` around it is trimmable. */
  predicate TrimmedAt(s: string, r: string, k: nat) {
    && k + |r| <= |s|
    && r == s[k..k + |r|]
    && (forall i :: 0 <= i < k ==> IsTrimmable(s[i]))
    && (forall i :: k + |r| <= i < |s| ==> IsTrimmable(s[i]))
  }

  /**
   * `s.trim()`: the slice of `s` between its leading and its trailing
   * trimmable characters; it neither starts nor ends with one.
   */
  function Trim(s: string): (r: string)
    ensures |r| <= |s|
    ensures r == [] || (!IsTrimmable(r[0]) && !IsTrimmable(r[|r| - 1]))
  {
    var a := TrimStart(s);
    TrimEndPrefix(a);
    TrimEnd(a)
  }

  /** The trimmed string is the slice of `s` framed on both sides by trimmable characters. */
  lemma TrimFramed(s: string)
    ensures TrimmedAt(s, Trim(s), |s| - |TrimStart(s)|)
  {
    var a := TrimStart(s);
    var r := Trim(s);
    var k := |s| - |a|;
    TrimStartSuffix(s);
    TrimEndPrefix(a);
    SliceOfSuffix(s, a, k, |r|);
    forall i | k + |r| <= i < |s|
      ensures IsTrimmable(s[i])
    {
      assert s[i] == a[i - k];
    }
  }

  /** `x?.trim()`: an absent field stays absent, a present one is trimmed. */
  function TrimOptional(x: Option<string>): (r: Option<string>)
    ensures r.Some? <==> x.Some?
    ensures r.Some? ==> r.value == Trim(x.value)
  {
    match x
    case None => None
    case Some(v) => Some(Trim(v))
  }

  /** A string that already has nothing to trim is left as it is. */
  lemma TrimOfTrimmed(s: string)
    requires s == [] || (!IsTrimmable(s[0]) && !IsTrimmable(s[|s| - 1]))
    ensures Trim(s) == s
  {
  }

  /** Trimming twice is trimming once. */
  lemma TrimIdempotent(s: string)
    ensures Trim(Trim(s)) == Trim(s)
  {
    TrimOfTrimmed(Trim(s));
  }

  /** Leading trimmable characters are dropped whatever they are followed by. */
  lemma {:induction false} TrimStartPadded(w: string, s: string)
    requires forall i :: 0 <= i < |w| ==> IsTrimmable(w[i])
    ensures TrimStart(w + s) == TrimStart(s)
  {
    if w != [] {
      assert (w + s)[0] == w[0];
      assert (w + s)[1..] == w[1..] + s;
      TrimStartPadded(w[1..], s);
    } else {
      assert w + s == s;
    }
  }

  /** Trimming ignores trimmable characters put in front. */
  lemma TrimPadded(w: string, s: string)
    requires forall i :: 0 <= i < |w| ==> IsTrimmable(w[i])
    ensures Trim(w + s) == Trim(s)
  {
    TrimStartPadded(w, s);
  }

  /** The position of the first `c` in `s`, or `|s|` when there is none. */
  function Find(s: string, c: char): (i: nat)
    ensures i <= |s|
    ensures i < |s| ==> s[i] == c
  {
    if s == [] then 0
    else if s[0] == c then 0
    else Find(s[1..], c) + 1
  }

  /** No `c` comes before the position `Find` reports. */
  lemma {:induction false} FindFirst(s: string, c: char)
    ensures forall j :: 0 <= j < Find(s, c) ==> s[j] != c
  {
    if s != [] && s[0] != c {
      FindFirst(s[1..], c);
      forall j | 0 < j < Find(s, c)
        ensures s[j] != c
      {
        assert s[j] == s[1..][j - 1];
      }
    }
  }

  /** `Find` reports the position `k` that holds `c` (or is the end) and has no `c` before it. */
  lemma {:induction false} FindAt(s: string, c: char, k: nat)
    requires k <= |s| && (k < |s| ==> s[k] == c)
    requires forall j :: 0 <= j < k ==> s[j] != c
    ensures Find(s, c) == k
  {
    if k > 0 {
      assert s[0] != c;
      forall j | 0 <= j < k - 1
        ensures s[1..][j] != c
      {
        assert s[1..][j] == s[j + 1];
      }
      FindAt(s[1..], c, k - 1);
    }
  }

  /** There is a `c` in `s` exactly when `Find` stops before the end. */
  lemma FindFound(s: string, c: char)
    ensures c in s <==> Find(s, c) < |s|
  {
    FindFirst(s, c);
  }

  /**
   * `s.split(sep)` for a one-character separator: the pieces between
   * occurrences of `sep`, in order; a string without `sep` is one piece.
   */
  function Split(s: string, sep: char): (r: seq<string>)
    ensures |r| >= 1
    decreases |s|
  {
    var i := Find(s, sep);
    if i == |s| then [s] else [s[..i]] + Split(s[i + 1..], sep)
  }

  /** No piece contains the separator, and there is more than one piece exactly when the string contains it. */
  lemma {:induction false} SplitPieces(s: string, sep: char)
    ensures forall k :: 0 <= k < |Split(s, sep)| ==> sep !in Split(s, sep)[k]
    ensures |Split(s, sep)| == 1 <==> sep !in s
    decreases |s|
  {
    var i := Find(s, sep);
    FindFound(s, sep);
    FindFirst(s, sep);
    if i < |s| {
      var rest := Split(s[i + 1..], sep);
      SplitPieces(s[i + 1..], sep);
      assert Split(s, sep) == [s[..i]] + rest;
      assert sep !in s[..i];
    }
  }

  /** Splitting at a separator splits both sides independently. */
  lemma {:induction false} SplitAppend(x: string, y: string, sep: char)
    ensures Split(x + [sep] + y, sep) == Split(x, sep) + Split(y, sep)
    decreases |x|
  {
    var s := x + [sep] + y;
    var i := Find(x, sep);
    FindFirst(x, sep);
    FindAt(s, sep, i);
    SplitCut(s, sep, i);
    if i == |x| {
      assert s[..i] == x && s[i + 1..] == y;
      SplitWhole(x, sep);
    } else {
      var rest := x[i + 1..];
      assert s[..i] == x[..i] && s[i + 1..] == rest + [sep] + y;
      SplitCut(x, sep, i);
      SplitAppend(rest, y, sep);
      ConsAssociates(x[..i], Split(rest, sep), Split(y, sep));
    }
  }

  /** The first piece ends at the first separator and the other pieces are the split of what follows it. */
  lemma SplitCut(s: string, sep: char, i: nat)
    requires i < |s| && Find(s, sep) == i
    ensures Split(s, sep) == [s[..i]] + Split(s[i + 1..], sep)
    ensures Split(s, sep)[0] == s[..i] && Split(s, sep)[1..] == Split(s[i + 1..], sep)
  {
  }

  /** Without a separator the string is its only piece. */
  lemma SplitWhole(s: string, sep: char)
    requires Find(s, sep) == |s|
    ensures Split(s, sep) == [s]
  {
  }

  /** Text without the separator in front of a string joins its first piece. */
  lemma SplitPrefix(w: string, t: string, sep: char)
    requires sep !in w
    ensures Split(w + t, sep) == [w + Split(t, sep)[0]] + Split(t, sep)[1..]
  {
    FindShift(w, t, sep);
    if Find(t, sep) < |t| {
      SplitPrefixCut(w, t, sep);
    } else {
      SplitWhole(w + t, sep);
      SplitWhole(t, sep);
    }
  }

  /** The case of `SplitPrefix` where `t` holds the separator: the first cut moves right by `|w|`. */
  lemma SplitPrefixCut(w: string, t: string, sep: char)
    requires Find(t, sep) < |t| && Find(w + t, sep) == |w| + Find(t, sep)
    ensures Split(w + t, sep) == [w + Split(t, sep)[0]] + Split(t, sep)[1..]
  {
    var i := Find(t, sep);
    calc {
      Split(w + t, sep);
      { SplitCut(w + t, sep, |w| + i); }
      [(w + t)[..|w| + i]] + Split((w + t)[|w| + i + 1..], sep);
      { SlicesOfAppend(w, t, i); }
      [w + t[..i]] + Split(t[i + 1..], sep);
      { SplitCut(t, sep, i); }
      [w + Split(t, sep)[0]] + Split(t, sep)[1..];
    }
  }

  /** The first separator after a separator-free prefix. */
  lemma FindShift(w: string, t: string, sep: char)
    requires sep !in w
    ensures Find(w + t, sep) == |w| + Find(t, sep)
  {
    var s := w + t;
    var i := Find(t, sep);
    FindFirst(t, sep);
    forall j | 0 <= j < |w| + i
      ensures s[j] != sep
    {
      if j < |w| {
        assert s[j] == w[j];
      } else {
        assert s[j] == t[j - |w|];
      }
    }
    if i < |t| {
      assert s[|w| + i] == t[i];
    }
    FindAt(s, sep, |w| + i);
  }

  /** `parts.join(sep)`: the pieces with `sep` between neighbours. */
  function Join(parts: seq<string>, sep: char): string
    requires |parts| >= 1
  {
    if |parts| == 1 then parts[0] else parts[0] + [sep] + Join(parts[1..], sep)
  }

  /** Joining the pieces of a split gives back the string. */
  lemma {:induction false} JoinSplit(s: string, sep: char)
    ensures Join(Split(s, sep), sep) == s
    decreases |s|
  {
    var i := Find(s, sep);
    if i < |s| {
      var parts, rest := Split(s, sep), Split(s[i + 1..], sep);
      assert parts == [s[..i]] + rest;
      assert parts[1..] == rest;
      JoinSplit(s[i + 1..], sep);
      assert Join(parts, sep) == s[..i] + [sep] + Join(rest, sep);
      assert s == s[..i] + [sep] + s[i + 1..];
    }
  }

  /** Splitting pieces that do not contain the separator, once joined, gives back the pieces. */
  lemma {:induction false} SplitJoin(parts: seq<string>, sep: char)
    requires |parts| >= 1 && forall k :: 0 <= k < |parts| ==> sep !in parts[k]
    ensures Split(Join(parts, sep), sep) == parts
  {
    FindFound(parts[0], sep);
    SplitWhole(parts[0], sep);
    if |parts| > 1 {
      SplitJoin(parts[1..], sep);
      SplitAppend(parts[0], Join(parts[1..], sep), sep);
      assert parts == [parts[0]] + parts[1..];
    }
  }
}
