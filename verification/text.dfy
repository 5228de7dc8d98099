/** String helpers with JavaScript semantics: `String.prototype.split` on a
    single character, the `\s` character class, character removal, ASCII
    upper-casing and the e-mail pattern used by registration and update.
 */
module Text {
  import opened Common

  /** The characters JavaScript's regular-expression class `\s` matches. */
  predicate IsSpace(c: char) {
    || c == ' ' || c == '\t' || c == '\n' || c == '\U{000B}' || c == '\U{000C}' || c == '\r'
    || c == '\U{00A0}' || c == '\U{1680}' || ('\U{2000}' <= c <= '\U{200A}')
    || c == '\U{2028}' || c == '\U{2029}' || c == '\U{202F}' || c == '\U{205F}'
    || c == '\U{3000}' || c == '\U{FEFF}'
  }

  /** Number of occurrences of `c` in `s`. */
  function Count(s: string, c: char): nat {
    if |s| == 0 then 0 else (if s[0] == c then 1 else 0) + Count(s[1..], c)
  }

  // ---------------------------------------------------------------------------
  // split / join

  /** `s.split(sep)`: the maximal `sep`-free pieces between separators; the
      empty string splits into one empty piece. */
  function Split(s: string, sep: char): (parts: seq<string>)
    ensures |parts| == Count(s, sep) + 1
    ensures forall i :: 0 <= i < |parts| ==> sep !in parts[i]
  {
    if |s| == 0 then [""]
    else
      var rest := Split(s[1..], sep);
      if s[0] == sep then [""] + rest
      else [[s[0]] + rest[0]] + rest[1..]
  }

  /** `parts.join(sep)`. */
  function Join(parts: seq<string>, sep: char): string
    decreases |parts|
  {
    if |parts| == 0 then ""
    else if |parts| == 1 then parts[0]
    else parts[0] + [sep] + Join(parts[1..], sep)
  }

  /** `s.split(sep)[n]`, or None where JavaScript yields `undefined`. */
  function Segment(s: string, sep: char, n: nat): (r: Option<string>)
    ensures r.Some? <==> n <= Count(s, sep)
    ensures r.Some? ==> sep !in r.value
  {
    var parts := Split(s, sep);
    if n < |parts| then Some(parts[n]) else None
  }

  lemma JoinConsHead(c: char, rest: seq<string>, sep: char)
    requires |rest| >= 1
    ensures Join([[c] + rest[0]] + rest[1..], sep) == [c] + Join(rest, sep)
  {
    var ps := [[c] + rest[0]] + rest[1..];
    if |rest| > 1 {
      assert ps[1..] == rest[1..];
    }
  }

  /** Joining the pieces of a split gives back the original string. */
  lemma {:induction false} JoinSplit(s: string, sep: char)
    ensures Join(Split(s, sep), sep) == s
  {
    if |s| > 0 {
      var rest := Split(s[1..], sep);
      JoinSplit(s[1..], sep);
      if s[0] == sep {
        assert ([""] + rest)[1..] == rest;
      } else {
        JoinConsHead(s[0], rest, sep);
      }
      assert s == [s[0]] + s[1..];
    }
  }

  lemma {:induction false} SplitNoSep(a: string, sep: char)
    requires sep !in a
    ensures Split(a, sep) == [a]
  {
    if |a| > 0 {
      SplitNoSep(a[1..], sep);
      assert [a[0]] + a[1..] == a;
    }
  }

  lemma {:induction false} SplitPrefix(a: string, sep: char, b: string)
    requires sep !in a
    ensures Split(a + [sep] + b, sep) == [a] + Split(b, sep)
  {
    var s := a + [sep] + b;
    if |a| == 0 {
      assert s[1..] == b;
    } else {
      assert s[1..] == a[1..] + [sep] + b;
      SplitPrefix(a[1..], sep, b);
      assert [a[0]] + a[1..] == a;
    }
  }

  /** Splitting a join of separator-free pieces gives back the pieces. */
  lemma {:induction false} SplitJoin(parts: seq<string>, sep: char)
    requires |parts| >= 1
    requires forall i :: 0 <= i < |parts| ==> sep !in parts[i]
    ensures Split(Join(parts, sep), sep) == parts
    decreases |parts|
  {
    if |parts| == 1 {
      SplitNoSep(parts[0], sep);
    } else {
      SplitJoin(parts[1..], sep);
      SplitPrefix(parts[0], sep, Join(parts[1..], sep));
      assert parts == [parts[0]] + parts[1..];
    }
  }

  /** The n-th segment of a join of separator-free pieces is the n-th piece. */
  lemma SegmentOfJoin(parts: seq<string>, sep: char, n: nat)
    requires |parts| >= 1
    requires forall i :: 0 <= i < |parts| ==> sep !in parts[i]
    ensures n < |parts| ==> Segment(Join(parts, sep), sep, n) == Some(parts[n])
    ensures n >= |parts| ==> Segment(Join(parts, sep), sep, n) == None
  {
    SplitJoin(parts, sep);
  }

  /** Pieces free of the separator stay so when two lists are concatenated. */
  lemma SepFreeConcat(a: seq<string>, b: seq<string>, sep: char)
    requires forall i :: 0 <= i < |a| ==> sep !in a[i]
    requires forall i :: 0 <= i < |b| ==> sep !in b[i]
    ensures forall i :: 0 <= i < |a + b| ==> sep !in (a + b)[i]
  {
    forall i | 0 <= i < |a + b|
      ensures sep !in (a + b)[i]
    {
      if i < |a| {
        assert (a + b)[i] == a[i];
      } else {
        assert (a + b)[i] == b[i - |a|];
      }
    }
  }

  // ---------------------------------------------------------------------------
  // character removal

  /** `s.replace(/[…]/g, "")` for the character class `bad`. */
  function RemoveAll(s: string, bad: set<char>): (r: string)
    ensures forall i :: 0 <= i < |r| ==> r[i] !in bad
    ensures forall c :: c !in bad ==> multiset(r)[c] == multiset(s)[c]
    ensures |r| <= |s|
  {
    if |s| == 0 then ""
    else
      var rest := RemoveAll(s[1..], bad);
      assert s == [s[0]] + s[1..];
      if s[0] in bad then rest else [s[0]] + rest
  }

  /** Removal works piecewise, so the kept characters stay in their order. */
  lemma {:induction false} RemoveAllAppend(a: string, b: string, bad: set<char>)
    ensures RemoveAll(a + b, bad) == RemoveAll(a, bad) + RemoveAll(b, bad)
  {
    if |a| > 0 {
      assert (a + b)[1..] == a[1..] + b;
      RemoveAllAppend(a[1..], b, bad);
    } else {
      assert a + b == b;
    }
  }

  /** A string without any removed character is left as it is; in particular
      removing twice is the same as removing once. */
  lemma {:induction false} RemoveAllClean(s: string, bad: set<char>)
    requires forall i :: 0 <= i < |s| ==> s[i] !in bad
    ensures RemoveAll(s, bad) == s
  {
    if |s| > 0 {
      RemoveAllClean(s[1..], bad);
      assert [s[0]] + s[1..] == s;
    }
  }

  lemma RemoveAllIdempotent(s: string, bad: set<char>)
    ensures RemoveAll(RemoveAll(s, bad), bad) == RemoveAll(s, bad)
  {
    RemoveAllClean(RemoveAll(s, bad), bad);
  }

  // ---------------------------------------------------------------------------
  // upper-casing

  function UpperAscii(c: char): (u: char)
    ensures 'a' <= c <= 'z' ==> u as int == c as int - 32
    ensures !('a' <= c <= 'z') ==> u == c
  {
    if 'a' <= c <= 'z' then (c as int - 32) as char else c
  }

  /** `s.toUpperCase()` restricted to ASCII letters. */
  function ToUpper(s: string): (r: string)
    ensures |r| == |s|
    ensures forall i :: 0 <= i < |s| ==> r[i] == UpperAscii(s[i])
  {
    seq(|s|, i requires 0 <= i < |s| => UpperAscii(s[i]))
  }

  // ---------------------------------------------------------------------------
  // the e-mail pattern ^[^\s@]+@[^\s@]+\.[^\s@]+$

  /** A character of the class `[^\s@]`. */
  predicate WordChar(c: char) {
    !IsSpace(c) && c != '@'
  }

  /** Index of the first `c` in `s`, or `|s|` when there is none. */
  function IndexOf(s: string, c: char): (i: nat)
    ensures i <= |s|
    ensures i < |s| ==> s[i] == c
    ensures forall k :: 0 <= k < i ==> s[k] != c
  {
    if |s| == 0 then 0 else if s[0] == c then 0 else 1 + IndexOf(s[1..], c)
  }

  /** The validator: a single `@` after a non-empty local part, a `.` strictly
      inside the domain, and no white space anywhere. */
  predicate IsEmail(s: string) {
    var a := IndexOf(s, '@');
    && 1 <= a
    && a + 4 <= |s|
    && (forall k :: 0 <= k < |s| && k != a ==> WordChar(s[k]))
    && '.' in s[a + 2..|s| - 1]
  }

  /** The pattern read literally: `s` is A "@" B "." C with A, B and C
      non-empty runs of `[^\s@]`, the `@` at index `a` and the `.` at `b`. */
  ghost predicate EmailShape(s: string, a: int, b: int) {
    && 1 <= a && a + 2 <= b && b + 2 <= |s|
    && s[a] == '@' && s[b] == '.'
    && (forall k :: 0 <= k < a ==> WordChar(s[k]))
    && (forall k :: a < k < b ==> WordChar(s[k]))
    && (forall k :: b < k < |s| ==> WordChar(s[k]))
  }

  ghost predicate MatchesEmailPattern(s: string) {
    exists a, b :: EmailShape(s, a, b)
  }

  /** The validator accepts exactly the strings the regular expression matches. */
  lemma EmailValidatorMatchesPattern(s: string)
    ensures IsEmail(s) <==> MatchesEmailPattern(s)
  {
    var a := IndexOf(s, '@');
    if IsEmail(s) {
      var d := s[a + 2..|s| - 1];
      var j := IndexOf(d, '.');
      var b := a + 2 + j;
      assert s[b] == d[j];
      assert EmailShape(s, a, b);
    }
    if MatchesEmailPattern(s) {
      var a', b :| EmailShape(s, a', b);
      assert s[a'] == '@';
      assert a == a';
      var d := s[a + 2..|s| - 1];
      assert d[b - a - 2] == '.';
    }
  }
}
