/**
 * The JavaScript string built-ins the core relies on, restricted to ASCII:
 * `\s`, `\w`, `toLowerCase`, `trim`, `indexOf`, `split` on one character,
 * `join`, `startsWith`/`endsWith`, and the `replace(/'/g, "\\'")` escape.
 */
module Text {
  import opened Wrappers

  /** ASCII whitespace as `\s` and `trim` see it: space, tab, LF, VT, FF and CR. */
  predicate IsSpace(c: char) {
    c == ' ' || '\t' <= c <= '\r'
  }

  /** The ASCII word characters of `\w`. */
  predicate IsWordChar(c: char) {
    'a' <= c <= 'z' || 'A' <= c <= 'Z' || '0' <= c <= '9' || c == '_'
  }

  predicate IsUpper(c: char) {
    'A' <= c <= 'Z'
  }

  predicate NoSpace(s: string) {
    forall i :: 0 <= i < |s| ==> !IsSpace(s[i])
  }

  function LowerChar(c: char): char {
    if IsUpper(c) then (c as int + 32) as char else c
  }

  /** `toLowerCase` on ASCII: upper-case letters become lower-case, nothing else moves. */
  function Lower(s: string): (r: string)
    ensures |r| == |s|
    ensures forall i :: 0 <= i < |r| ==> !IsUpper(r[i])
    ensures forall i :: 0 <= i < |s| && !IsUpper(s[i]) ==> r[i] == s[i]
    ensures forall i :: 0 <= i < |s| && IsUpper(s[i]) ==> r[i] as int == s[i] as int + 32
  {
    seq(|s|, i requires 0 <= i < |s| => LowerChar(s[i]))
  }

  predicate StartsWith(s: string, prefix: string) {
    |prefix| <= |s| && s[..|prefix|] == prefix
  }

  predicate EndsWith(s: string, suffix: string) {
    |suffix| <= |s| && s[|s| - |suffix|..] == suffix
  }

  /** No whitespace at either end: what `trim` leaves. */
  predicate IsTrimmed(s: string) {
    s == [] || (!IsSpace(s[0]) && !IsSpace(s[|s| - 1]))
  }

  function TrimStart(s: string): (r: string)
    ensures |r| <= |s| && r == s[|s| - |r|..]
    ensures r == [] || !IsSpace(r[0])
    ensures forall i :: 0 <= i < |s| - |r| ==> IsSpace(s[i])
  {
    if s != [] && IsSpace(s[0]) then
      var r := TrimStart(s[1..]);
      assert r == s[|s| - |r|..] by {
        assert s[1..][|s| - 1 - |r|..] == s[|s| - |r|..];
      }
      assert forall i :: 0 <= i < |s| - |r| ==> IsSpace(s[i]) by {
        forall i | 0 < i < |s| - |r| ensures IsSpace(s[i]) {
          assert s[i] == s[1..][i - 1];
        }
      }
      r
    else s
  }

  function TrimEnd(s: string): (r: string)
    ensures |r| <= |s| && r == s[..|r|]
    ensures r == [] || !IsSpace(r[|r| - 1])
    ensures forall i :: |r| <= i < |s| ==> IsSpace(s[i])
  {
    if s != [] && IsSpace(s[|s| - 1]) then TrimEnd(s[..|s| - 1]) else s
  }

  /** `trim`: drops the leading and the trailing whitespace. */
  function Trim(s: string): (r: string)
    ensures IsTrimmed(r)
    ensures IsTrimmed(s) ==> r == s
    ensures NoSpace(s) ==> r == s
  {
    TrimEnd(TrimStart(s))
  }

  /** `trim` keeps the middle: its result is the piece of the input that starts after
      the leading whitespace, with only whitespace after it. */
  lemma TrimMiddle(s: string)
    ensures MiddleAt(s, |s| - |TrimStart(s)|, Trim(s))
  {
    MiddleOf(s, TrimStart(s));
  }

  /** Trimming the end of a suffix `a` of `s` that has only whitespace before it leaves
      a piece in the middle of `s`. */
  lemma MiddleOf(s: string, a: string)
    requires |a| <= |s| && a == s[|s| - |a|..]
    requires forall k :: 0 <= k < |s| - |a| ==> IsSpace(s[k])
    ensures MiddleAt(s, |s| - |a|, TrimEnd(a))
  {
    MiddleOfPrefix(s, a, TrimEnd(a));
  }

  /** A prefix `r` of a suffix `a` of `s`, with only whitespace before `a` and after `r`,
      sits in the middle of `s`. */
  lemma MiddleOfPrefix(s: string, a: string, r: string)
    requires |a| <= |s| && a == s[|s| - |a|..]
    requires forall k :: 0 <= k < |s| - |a| ==> IsSpace(s[k])
    requires |r| <= |a| && r == a[..|r|]
    requires forall j :: |r| <= j < |a| ==> IsSpace(a[j])
    ensures MiddleAt(s, |s| - |a|, r)
  {
    var i := |s| - |a|;
    assert s[i..i + |r|] == s[i..][..|r|];
    forall k | i + |r| <= k < |s| ensures IsSpace(s[k]) {
      assert s[k] == a[k - i];
    }
  }

  /** `r` sits at `i` in `s`, with only whitespace before and after it. */
  predicate MiddleAt(s: string, i: int, r: string) {
    0 <= i <= |s| - |r| && r == s[i..i + |r|] &&
    (forall k :: 0 <= k < i ==> IsSpace(s[k])) &&
    (forall k :: i + |r| <= k < |s| ==> IsSpace(s[k]))
  }

  /** `${s}` of a value that may be `undefined`. */
  function Shown(s: Option<string>): string {
    if s.Some? then s.value else "undefined"
  }

  /** Concatenation regroups. */
  lemma ConcatAssoc<T>(a: seq<T>, b: seq<T>, c: seq<T>)
    ensures a + b + c == a + (b + c)
  {
  }

  /** Every character `trim` keeps is one of the input's. */
  lemma TrimChars(s: string)
    ensures forall c :: c in Trim(s) ==> c in s
  {
    var a := TrimStart(s);
    assert forall c :: c in TrimEnd(a) ==> c in a;
    assert forall c :: c in a ==> c in s;
  }

  lemma TrimSkipsSpace(c: char, s: string)
    requires IsSpace(c)
    ensures Trim([c] + s) == Trim(s)
  {
    assert ([c] + s)[1..] == s;
  }

  /** `" " + s` trims back to `s` when `s` is already trimmed. */
  lemma TrimAfterSpace(s: string)
    requires IsTrimmed(s)
    ensures Trim(" " + s) == s
  {
    TrimSkipsSpace(' ', s);
  }

  /** `indexOf` of a character that occurs: its first occurrence. */
  function IndexOf(s: string, c: char): (i: nat)
    requires c in s
    ensures i < |s| && s[i] == c && c !in s[..i]
  {
    if s[0] == c then 0
    else
      var j := IndexOf(s[1..], c);
      assert s[..j + 1] == [s[0]] + s[1..][..j];
      j + 1
  }

  /** The first occurrence is the only index with `c` there and no `c` before it. */
  lemma IndexOfUnique(s: string, c: char, i: nat)
    requires i < |s| && s[i] == c && c !in s[..i]
    ensures IndexOf(s, c) == i
  {
  }

  /** `parts.join(sep)`. */
  function Join(parts: seq<string>, sep: string): string {
    if |parts| == 0 then ""
    else if |parts| == 1 then parts[0]
    else parts[0] + sep + Join(parts[1..], sep)
  }

  lemma JoinCons(a: string, parts: seq<string>, sep: string)
    requires |parts| >= 1
    ensures Join([a] + parts, sep) == a + sep + Join(parts, sep)
  {
    assert ([a] + parts)[1..] == parts;
  }

  lemma {:induction false} JoinSnoc(parts: seq<string>, b: string, sep: string)
    requires |parts| >= 1
    ensures Join(parts + [b], sep) == Join(parts, sep) + sep + b
  {
    if |parts| == 1 {
      assert (parts + [b])[1..] == [b];
    } else {
      assert (parts + [b])[1..] == parts[1..] + [b];
      JoinSnoc(parts[1..], b, sep);
    }
  }

  /** A character that is in no part and not in the separator is not in the join. */
  lemma {:induction false} JoinAvoids(parts: seq<string>, sep: string, c: char)
    requires c !in sep
    requires forall k :: 0 <= k < |parts| ==> c !in parts[k]
    ensures c !in Join(parts, sep)
  {
    if |parts| > 1 {
      JoinAvoids(parts[1..], sep, c);
    }
  }

  /** A text starts with its first part. */
  lemma StartsWithPart(a: string, t: string)
    ensures StartsWith(a + t, a)
  {
    assert (a + t)[..|a|] == a;
  }

  /** A prefix grows by what goes in front of both. */
  lemma StartsWithFront(a: string, s: string, p: string)
    requires StartsWith(s, p)
    ensures StartsWith(a + s, a + p)
  {
    var x := a + s;
    forall k | 0 <= k < |a| + |p| ensures x[k] == (a + p)[k] {
      if k >= |a| {
        assert x[k] == s[k - |a|];
      }
    }
    assert x[..|a| + |p|] == a + p;
  }

  /** A prefix stays one when something follows. */
  lemma StartsWithBack(s: string, t: string, p: string)
    requires StartsWith(s, p)
    ensures StartsWith(s + t, p)
  {
    assert (s + t)[..|p|] == s[..|p|];
  }

  /** One prefix of another is a prefix of whatever the other is a prefix of. */
  lemma StartsWithTrans(s: string, p: string, q: string)
    requires StartsWith(s, q) && StartsWith(q, p)
    ensures StartsWith(s, p)
  {
    assert s[..|p|] == q[..|p|];
  }

  /** A join starts with its first part, followed by the separator when there is more. */
  lemma JoinStartsWithFirst(parts: seq<string>, sep: string)
    requires |parts| >= 1
    ensures |Join(parts, sep)| >= |parts[0]| && Join(parts, sep)[..|parts[0]|] == parts[0]
    ensures |parts| > 1 ==> Join(parts, sep)[|parts[0]|..|parts[0]| + |sep|] == sep
  {
  }

  /** `s.split(sep)`: the pieces between the separators, at least one, and joining them gives `s` back. */
  function Split(s: string, sep: char): (parts: seq<string>)
    ensures |parts| >= 1
    ensures forall k :: 0 <= k < |parts| ==> sep !in parts[k]
    ensures Join(parts, [sep]) == s
    decreases |s|
  {
    if sep !in s then [s]
    else
      var i := IndexOf(s, sep);
      var rest := Split(s[i + 1..], sep);
      JoinCons(s[..i], rest, [sep]);
      assert s == s[..i] + [sep] + s[i + 1..];
      [s[..i]] + rest
  }

  /** Splitting a join at a separator no part contains recovers the parts. */
  lemma {:induction false} SplitJoin(parts: seq<string>, sep: char)
    requires |parts| >= 1
    requires forall k :: 0 <= k < |parts| ==> sep !in parts[k]
    ensures Split(Join(parts, [sep]), sep) == parts
  {
    if |parts| > 1 {
      var tail := parts[1..];
      var s := Join(parts, [sep]);
      JoinCons(parts[0], tail, [sep]);
      assert s == parts[0] + [sep] + Join(tail, [sep]);
      assert s[|parts[0]|] == sep;
      assert s[..|parts[0]|] == parts[0];
      IndexOfUnique(s, sep, |parts[0]|);
      assert s[|parts[0]| + 1..] == Join(tail, [sep]);
      SplitJoin(tail, sep);
      assert parts == [parts[0]] + tail;
    }
  }

  /** `s.replace(/'/g, "\\'")`. */
  function EscapeQuotes(s: string): (r: string)
    ensures '\'' !in s ==> r == s
    ensures forall i :: 0 <= i < |r| && r[i] == '\'' ==> i > 0 && r[i - 1] == '\\'
  {
    if s == [] then []
    else (if s[0] == '\'' then "\\'" else [s[0]]) + EscapeQuotes(s[1..])
  }

  /** Reading a backslash-escaped quote back as a quote. */
  function UnescapeQuotes(s: string): string {
    if |s| >= 2 && s[0] == '\\' && s[1] == '\'' then "'" + UnescapeQuotes(s[2..])
    else if s == [] then []
    else [s[0]] + UnescapeQuotes(s[1..])
  }

  /** The escape loses nothing: a reader that undoes `\'` gets the original text back. */
  lemma {:induction false} EscapeQuotesRoundTrip(s: string)
    ensures UnescapeQuotes(EscapeQuotes(s)) == s
  {
    if s != [] {
      var tail := EscapeQuotes(s[1..]);
      EscapeQuotesRoundTrip(s[1..]);
      if s[0] == '\'' {
        assert EscapeQuotes(s) == "\\'" + tail;
        assert ("\\'" + tail)[2..] == tail;
      } else {
        assert EscapeQuotes(s) == [s[0]] + tail;
        assert ([s[0]] + tail)[1..] == tail;
        if s[0] == '\\' && tail != [] {
          assert tail[0] != '\'';
        }
      }
      assert s == [s[0]] + s[1..];
    }
  }

  function Digit(d: nat): char
    requires d < 10
  {
    "0123456789"[d]
  }

  /** `String(n)` for a count: decimal digits, no sign, no leading zero. */
  function NatToString(n: nat): (s: string)
    ensures |s| >= 1
    ensures forall i :: 0 <= i < |s| ==> '0' <= s[i] <= '9'
    ensures |s| > 1 ==> s[0] != '0'
  {
    if n < 10 then [Digit(n)] else NatToString(n / 10) + [Digit(n % 10)]
  }

  /** The value of a string of decimal digits. */
  function DigitsValue(s: string): int
    requires forall i :: 0 <= i < |s| ==> '0' <= s[i] <= '9'
  {
    if s == [] then 0 else DigitsValue(s[..|s| - 1]) * 10 + (s[|s| - 1] as int - '0' as int)
  }

  lemma {:induction false} NatToStringValue(n: nat)
    ensures DigitsValue(NatToString(n)) == n
  {
    if n >= 10 {
      var s := NatToString(n);
      assert s[..|s| - 1] == NatToString(n / 10);
      NatToStringValue(n / 10);
    }
  }
}
