/** The pure helpers of the logger: the log level of an HTTP status, and the
    masking of passwords in serialised log text.

    `sanitize` runs the global regular expression
        \"password\":  \s*  \"  [^"]*  \"
    over the JSON text of the log record and replaces each match with
    `\"password\": \"*****\"`. The backslashes are literal: the pattern aims
    at a request body that was serialised once into `reqBody` and then
    again with the whole record, so its quotes appear escaped. The model
    starts from the serialised text; `JSON.stringify` of the record itself
    is not modelled.
 */
module Logging {
  import opened Common
  import opened Text

  // ---------------------------------------------------------------------------
  // log levels

  /** `statusToLogLevel(statusCode)`. */
  function StatusToLogLevel(status: int): (level: string)
    ensures level == "error" <==> status >= 500
    ensures level == "warn" <==> 400 <= status < 500
    ensures level == "info" <==> status < 400
  {
    if status >= 500 then "error" else if status >= 400 then "warn" else "info"
  }

  /** Severity order of the three levels. */
  function Severity(level: string): nat {
    if level == "error" then 2 else if level == "warn" then 1 else 0
  }

  /** A higher status never gets a milder level. */
  lemma LevelMonotone(a: int, b: int)
    requires a <= b
    ensures Severity(StatusToLogLevel(a)) <= Severity(StatusToLogLevel(b))
  {
  }

  // ---------------------------------------------------------------------------
  // the pattern

  /** `\"password\":` */
  const Lead: string := "\\\"password\\\":"
  /** `\"`, the escaped quote that opens and closes the value. */
  const Quote: string := "\\\""
  /** The replacement `\"password\": \"*****\"`. */
  const Mask: string := "\\\"password\\\": \\\"*****\\\""

  /** The end of the run of `\s` characters starting at `i`. */
  function SpaceEnd(s: string, i: nat): (j: nat)
    requires i <= |s|
    ensures i <= j <= |s|
    ensures forall k :: i <= k < j ==> IsSpace(s[k])
    ensures j < |s| ==> !IsSpace(s[j])
    decreases |s| - i
  {
    if i == |s| || !IsSpace(s[i]) then i else SpaceEnd(s, i + 1)
  }

  /** The first `"` at or after `i`, or `|s|` when there is none. */
  function QuoteFrom(s: string, i: nat): (q: nat)
    requires i <= |s|
    ensures i <= q <= |s|
    ensures forall k :: i <= k < q ==> s[k] != '"'
    ensures q < |s| ==> s[q] == '"'
    decreases |s| - i
  {
    if i == |s| || s[i] == '"' then i else QuoteFrom(s, i + 1)
  }

  /** The two readings of the value: the expression as written, and one
      that steps over the escape sequences a twice-serialised string holds. */
  datatype Pattern = AsWritten | EscapeAware

  /** Where the value starts when the text at `i` opens a password field:
      the lead, the whole run of `\s` (the greedy `\s*` must take all of it,
      since a backslash follows) and the escaped opening quote. */
  function ValueStart(s: string, i: nat): (r: Option<nat>)
    requires i <= |s|
    ensures r.Some? ==> i + |Lead| + |Quote| <= r.value <= |s|
    ensures r.Some? ==> s[i..i + |Lead|] == Lead
  {
    if i + |Lead| <= |s| && s[i..i + |Lead|] == Lead then
      var j := SpaceEnd(s, i + |Lead|);
      if j + 2 <= |s| && s[j] == '\\' && s[j + 1] == '"' then Some(j + 2) else None
    else None
  }

  /** The value as written: `[^"]*` cannot pass a `"`, so the value ends at
      the first `"`, and only if a backslash precedes it. */
  function QuoteFreeEnd(s: string, v: nat): (r: Option<nat>)
    requires v <= |s|
    ensures r.Some? ==> v + 2 <= r.value <= |s|
  {
    var q := QuoteFrom(s, v);
    if q < |s| && q > v && s[q - 1] == '\\' then Some(q + 1) else None
  }

  /** Where the match starting at `i` ends, if one starts there. */
  function MatchAt(p: Pattern, s: string, i: nat): (r: Option<nat>)
    requires i <= |s|
    ensures r.Some? ==> i + |Lead| + |Quote| + |Quote| <= r.value <= |s|
  {
    match ValueStart(s, i)
    case None => None
    case Some(v) =>
      match p
      case AsWritten => QuoteFreeEnd(s, v)
      case EscapeAware => ValueEnd(s, v)
  }

  /** Steps over the units of a twice-serialised string: `\\\"` and `\\\\`
      (a quote and a backslash of the original), `\\` and one other
      character (any other escape), or a plain character; `\"` closes it. */
  function ValueEnd(s: string, k: nat): (r: Option<nat>)
    requires k <= |s|
    ensures r.Some? ==> k + 2 <= r.value <= |s|
    decreases |s| - k
  {
    if k + 2 <= |s| && s[k] == '\\' && s[k + 1] == '"' then Some(k + 2)
    else if k + 4 <= |s| && s[k] == '\\' && s[k + 1] == '\\' && s[k + 2] == '\\' && (s[k + 3] == '"' || s[k + 3] == '\\')
    then ValueEnd(s, k + 4)
    else if k + 3 <= |s| && s[k] == '\\' && s[k + 1] == '\\' && s[k + 2] != '\\' && s[k + 2] != '"' then ValueEnd(s, k + 3)
    else if k < |s| && s[k] != '\\' && s[k] != '"' then ValueEnd(s, k + 1)
    else None
  }

  /** The text the expression as written matches: the lead, spaces, an
      escaped quote, a value free of `"`, an escaped quote. */
  predicate FieldShape(t: string, w: string, v: string) {
    && t == Lead + w + Quote + v + Quote
    && (forall k :: 0 <= k < |w| ==> IsSpace(w[k]))
    && '"' !in v
  }

  ghost predicate IsPasswordField(t: string) {
    exists w: string, v: string :: FieldShape(t, w, v)
  }

  /** A match as written spans exactly a password field. */
  lemma MatchIsField(s: string, i: nat, e: nat)
    requires i <= |s| && MatchAt(AsWritten, s, i) == Some(e)
    ensures IsPasswordField(s[i..e])
  {
    var v0 := ValueStart(s, i).value;
    var w := FieldLead(s, i);
    var v := FieldValue(s, v0);
    assert s[i..e] == s[i..v0] + s[v0..e];
    assert FieldShape(s[i..e], w, v);
  }

  /** The spaces of the field that opens at `i`. */
  lemma FieldLead(s: string, i: nat) returns (w: string)
    requires i <= |s| && ValueStart(s, i).Some?
    ensures s[i..ValueStart(s, i).value] == Lead + w + Quote
    ensures forall k :: 0 <= k < |w| ==> IsSpace(w[k])
  {
    var a := i + |Lead|;
    var j := SpaceEnd(s, a);
    w := s[a..j];
    assert s[j..j + 2] == Quote;
    assert s[i..j + 2] == s[i..a] + s[a..j] + s[j..j + 2];
  }

  /** The value of the field whose value starts at `v0`. */
  lemma FieldValue(s: string, v0: nat) returns (v: string)
    requires v0 <= |s| && QuoteFreeEnd(s, v0).Some?
    ensures s[v0..QuoteFreeEnd(s, v0).value] == v + Quote
    ensures '"' !in v
  {
    var e := QuoteFreeEnd(s, v0).value;
    v := s[v0..e - 2];
    assert s[e - 2..e] == Quote;
    assert s[v0..e] == s[v0..e - 2] + s[e - 2..e];
    assert '"' !in v by {
      forall k | 0 <= k < |v|
        ensures v[k] != '"'
      {
        assert v[k] == s[v0 + k];
      }
    }
  }



  /** `s[k..]` starts with `a + b`: then it starts with `a`, followed by `b`. */
  lemma SplitSlice(s: string, k: nat, a: string, b: string)
    requires k + |a| + |b| <= |s| && s[k..k + |a| + |b|] == a + b
    ensures s[k..k + |a|] == a
    ensures s[k + |a|..k + |a| + |b|] == b
  {
    forall x | 0 <= x < |a|
      ensures s[k + x] == a[x]
    {
      assert s[k..k + |a| + |b|][x] == (a + b)[x];
    }
    forall x | 0 <= x < |b|
      ensures s[k + |a| + x] == b[x]
    {
      assert s[k..k + |a| + |b|][|a| + x] == (a + b)[|a| + x];
    }
  }

  /** Every password field at `i` is the match found there, whatever follows:
      the match is unique. */
  lemma FieldIsMatch(s: string, i: nat, e: nat, w: string, v: string)
    requires i <= e <= |s| && FieldShape(s[i..e], w, v)
    ensures MatchAt(AsWritten, s, i) == Some(e)
  {
    FiveSlices(s, i, e, Lead, w, Quote, v, Quote);
    LeadOfField(s, i, w);
    ValueOfField(s, i + |Lead| + |w| + |Quote|, v);
  }

  /** The five consecutive parts of a slice that is their concatenation. */
  lemma FiveSlices(s: string, i: nat, e: nat, a: string, b: string, c: string, d: string, f: string)
    requires i <= e <= |s| && s[i..e] == a + b + c + d + f
    ensures var j1 := i + |a|; var j2 := j1 + |b|; var j3 := j2 + |c|; var j4 := j3 + |d|;
      && e == j4 + |f|
      && s[i..j1] == a && s[j1..j2] == b && s[j2..j3] == c && s[j3..j4] == d && s[j4..e] == f
  {
    var j1 := i + |a|;
    var j2 := j1 + |b|;
    var j3 := j2 + |c|;
    assert s[i..e] == a + (b + (c + (d + f)));
    SplitSlice(s, i, a, b + (c + (d + f)));
    SplitSlice(s, j1, b, c + (d + f));
    SplitSlice(s, j2, c, d + f);
    SplitSlice(s, j3, d, f);
  }

  lemma LeadOfField(s: string, i: nat, w: string)
    requires i + |Lead| + |w| + 2 <= |s|
    requires s[i..i + |Lead|] == Lead && s[i + |Lead|..i + |Lead| + |w|] == w
    requires s[i + |Lead| + |w|..i + |Lead| + |w| + 2] == Quote
    requires forall k :: 0 <= k < |w| ==> IsSpace(w[k])
    ensures ValueStart(s, i) == Some(i + |Lead| + |w| + 2)
  {
    var a := i + |Lead|;
    var j := a + |w|;
    assert forall k :: a <= k < j ==> s[k] == w[k - a];
    assert s[j] == s[j..j + 2][0] && s[j + 1] == s[j..j + 2][1];
    SpaceEndIs(s, a, j);
  }

  lemma ValueOfField(s: string, v0: nat, v: string)
    requires v0 + |v| + 2 <= |s|
    requires s[v0..v0 + |v|] == v && s[v0 + |v|..v0 + |v| + 2] == Quote
    requires '"' !in v
    ensures QuoteFreeEnd(s, v0) == Some(v0 + |v| + 2)
  {
    var q := v0 + |v| + 1;
    assert forall k :: v0 <= k < q - 1 ==> s[k] == v[k - v0];
    assert s[q - 1] == s[q - 1..q + 1][0] && s[q] == s[q - 1..q + 1][1];
    QuoteFromIs(s, v0, q);
  }


  lemma {:induction false} SpaceEndIs(s: string, i: nat, j: nat)
    requires i <= j < |s|
    requires forall k :: i <= k < j ==> IsSpace(s[k])
    requires !IsSpace(s[j])
    ensures SpaceEnd(s, i) == j
    decreases j - i
  {
    if i < j {
      SpaceEndIs(s, i + 1, j);
    }
  }

  lemma {:induction false} QuoteFromIs(s: string, i: nat, q: nat)
    requires i <= q < |s|
    requires forall k :: i <= k < q ==> s[k] != '"'
    requires s[q] == '"'
    ensures QuoteFrom(s, i) == q
    decreases q - i
  {
    if i < q {
      QuoteFromIs(s, i + 1, q);
    }
  }

  /** Both directions together: as written, a match starts at `i` and ends
      at `e` exactly when `s[i..e]` is a password field. */
  lemma MatchIffField(s: string, i: nat, e: nat)
    requires i <= e <= |s|
    ensures MatchAt(AsWritten, s, i) == Some(e) <==> IsPasswordField(s[i..e])
  {
    if MatchAt(AsWritten, s, i) == Some(e) {
      MatchIsField(s, i, e);
    }
    if IsPasswordField(s[i..e]) {
      var w: string, v: string :| FieldShape(s[i..e], w, v);
      FieldIsMatch(s, i, e, w, v);
    }
  }

  // ---------------------------------------------------------------------------
  // the global replacement

  /** The text split the way `replace` with a global pattern walks it: a
      match is masked, and where none starts one character is kept. */
  datatype Piece = Kept(c: char) | Masked(original: string)

  function Original(ps: seq<Piece>): string {
    if |ps| == 0 then []
    else (match ps[0] case Kept(c) => [c] case Masked(t) => t) + Original(ps[1..])
  }

  function Rendered(ps: seq<Piece>): string {
    if |ps| == 0 then []
    else (match ps[0] case Kept(_) => [ps[0].c] case Masked(_) => Mask) + Rendered(ps[1..])
  }

  /** A walk of `s` from `i`: each piece is the leftmost-first choice there. */
  ghost predicate ValidScan(p: Pattern, s: string, i: nat, ps: seq<Piece>)
    decreases |ps|
  {
    if |ps| == 0 then i == |s|
    else
      && i < |s|
      && match ps[0]
         case Kept(c) =>
           c == s[i] && MatchAt(p, s, i).None? && ValidScan(p, s, i + 1, ps[1..])
         case Masked(t) =>
           && i + |t| <= |s| && s[i..i + |t|] == t
           && MatchAt(p, s, i) == Some(i + |t|)
           && ValidScan(p, s, i + |t|, ps[1..])
  }

  function ScanFrom(p: Pattern, s: string, i: nat): (ps: seq<Piece>)
    requires i <= |s|
    ensures Original(ps) == s[i..]
    decreases |s| - i
  {
    if i == |s| then []
    else
      match MatchAt(p, s, i)
      case Some(e) =>
        var rest := ScanFrom(p, s, e);
        SliceSplit(s, i, e);
        [Masked(s[i..e])] + rest
      case None =>
        var rest := ScanFrom(p, s, i + 1);
        SliceSplit(s, i, i + 1);
        [Kept(s[i])] + rest
  }

  lemma SliceSplit(s: string, i: nat, e: nat)
    requires i <= e <= |s|
    ensures s[i..] == s[i..e] + s[e..]
    ensures e == i + 1 ==> s[i..e] == [s[i]]
  {
  }

  /** Where the walk continues after position `i`. */
  function NextAt(p: Pattern, s: string, i: nat): (n: nat)
    requires i < |s|
    ensures i < n <= |s|
  {
    match MatchAt(p, s, i)
    case Some(e) => e
    case None => i + 1
  }

  /** The piece the walk takes at position `i`. */
  function PieceAt(p: Pattern, s: string, i: nat): (piece: Piece)
    requires i < |s|
    ensures Original([piece]) == s[i..NextAt(p, s, i)]
  {
    match MatchAt(p, s, i)
    case Some(e) => Masked(s[i..e])
    case None => Kept(s[i])
  }

  /** `ScanFrom` makes the leftmost-first choice at every step. */
  lemma {:induction false} ScanFromValid(p: Pattern, s: string, i: nat)
    requires i <= |s|
    ensures ValidScan(p, s, i, ScanFrom(p, s, i))
    decreases |s| - i
  {
    if i < |s| {
      var ps := ScanFrom(p, s, i);
      ScanFromHead(p, s, i);
      ScanFromValid(p, s, NextAt(p, s, i));
      assert ps[1..] == ScanFrom(p, s, NextAt(p, s, i));
      ValidScanCons(p, s, i, ps);
    }
  }

  lemma ValidScanCons(p: Pattern, s: string, i: nat, ps: seq<Piece>)
    requires i < |s| && |ps| > 0
    requires ps[0] == PieceAt(p, s, i) && ValidScan(p, s, NextAt(p, s, i), ps[1..])
    ensures ValidScan(p, s, i, ps)
  {
    match MatchAt(p, s, i)
    case Some(e) =>
      assert ps[0] == Masked(s[i..e]) && NextAt(p, s, i) == e;
    case None =>
      assert ps[0] == Kept(s[i]) && NextAt(p, s, i) == i + 1;
  }

  /** The walk is determined by the text: there is exactly one. */
  lemma {:induction false} ScanUnique(p: Pattern, s: string, i: nat, ps: seq<Piece>)
    requires i <= |s| && ValidScan(p, s, i, ps)
    ensures ps == ScanFrom(p, s, i)
    decreases |ps|
  {
    if |ps| > 0 {
      ScanHead(p, s, i, ps);
      ScanUnique(p, s, NextAt(p, s, i), ps[1..]);
      ScanFromHead(p, s, i);
      assert ps == [ps[0]] + ps[1..];
    }
  }

  /** The first piece of a walk and where the rest of it starts. */
  lemma ScanHead(p: Pattern, s: string, i: nat, ps: seq<Piece>)
    requires i <= |s| && ValidScan(p, s, i, ps) && |ps| > 0
    ensures i < |s|
    ensures ps[0] == PieceAt(p, s, i)
    ensures ValidScan(p, s, NextAt(p, s, i), ps[1..])
  {
    var m := MatchAt(p, s, i);
    if m.Some? {
      assert ps[0] == Masked(s[i..m.value]);
    } else {
      assert ps[0] == Kept(s[i]);
    }
  }

  /** One step of `ScanFrom`. */
  lemma ScanFromHead(p: Pattern, s: string, i: nat)
    requires i < |s|
    ensures ScanFrom(p, s, i) == [PieceAt(p, s, i)] + ScanFrom(p, s, NextAt(p, s, i))
  {
  }

  /** `Rendered` of a walk is the first piece's rendering followed by the rest's. */
  lemma RenderStep(p: Pattern, s: string, i: nat)
    requires i < |s|
    ensures MatchAt(p, s, i).Some? ==>
      Rendered(ScanFrom(p, s, i)) == Mask + Rendered(ScanFrom(p, s, MatchAt(p, s, i).value))
    ensures MatchAt(p, s, i).None? ==>
      Rendered(ScanFrom(p, s, i)) == [s[i]] + Rendered(ScanFrom(p, s, i + 1))
  {
    ScanFromHead(p, s, i);
    var ps := ScanFrom(p, s, i);
    assert ps[1..] == ScanFrom(p, s, if MatchAt(p, s, i).Some? then MatchAt(p, s, i).value else i + 1);
  }

  /** `sanitize` on the serialised text. */
  method Sanitize(p: Pattern, s: string) returns (out: string)
    ensures out == Rendered(ScanFrom(p, s, 0))
  {
    out := [];
    var i := 0;
    while i < |s|
      invariant 0 <= i <= |s|
      invariant out + Rendered(ScanFrom(p, s, i)) == Rendered(ScanFrom(p, s, 0))
      decreases |s| - i
    {
      RenderStep(p, s, i);
      var m := MatchAt(p, s, i);
      var piece := if m.Some? then Mask else [s[i]];
      var next := if m.Some? then m.value else i + 1;
      Regroup(out, piece, Rendered(ScanFrom(p, s, next)));
      out := out + piece;
      i := next;
    }
  }

  lemma Regroup(a: string, b: string, c: string)
    ensures a + (b + c) == (a + b) + c
  {
  }

  /** Rendering works piece by piece. */
  lemma {:induction false} RenderedAppend(a: seq<Piece>, b: seq<Piece>)
    ensures Rendered(a + b) == Rendered(a) + Rendered(b)
    decreases |a|
  {
    if |a| == 0 {
      assert a + b == b;
    } else {
      assert (a + b)[0] == a[0] && (a + b)[1..] == a[1..] + b;
      RenderedAppend(a[1..], b);
    }
  }

  /** A run of kept characters renders as the characters themselves. */
  lemma {:induction false} KeptRunRendered(kept: seq<Piece>)
    requires forall k :: 0 <= k < |kept| ==> kept[k].Kept?
    ensures Rendered(kept) == Original(kept)
    decreases |kept|
  {
    if |kept| > 0 {
      KeptRunRendered(kept[1..]);
    }
  }

  /** Anywhere in a walk, between and around the masks, a run of kept
      characters appears in the output unchanged, in order, right after the
      rendering of everything before it. */
  lemma KeptTextUnchanged(before: seq<Piece>, kept: seq<Piece>, after: seq<Piece>)
    requires forall k :: 0 <= k < |kept| ==> kept[k].Kept?
    ensures Rendered(before + kept + after) == Rendered(before) + Original(kept) + Rendered(after)
  {
    RenderedAppend(before + kept, after);
    RenderedAppend(before, kept);
    KeptRunRendered(kept);
  }

  /** The original text of a walk is the original texts of its parts. */
  lemma {:induction false} OriginalAppend(a: seq<Piece>, b: seq<Piece>)
    ensures Original(a + b) == Original(a) + Original(b)
    decreases |a|
  {
    if |a| == 0 {
      assert a + b == b;
    } else {
      assert (a + b)[0] == a[0] && (a + b)[1..] == a[1..] + b;
      OriginalAppend(a[1..], b);
    }
  }

  /** A run of kept pieces stands for exactly as many characters. */
  lemma {:induction false} KeptRunLength(kept: seq<Piece>)
    requires forall k :: 0 <= k < |kept| ==> kept[k].Kept?
    ensures |Original(kept)| == |kept|
    decreases |kept|
  {
    if |kept| > 0 {
      KeptRunLength(kept[1..]);
    }
  }

  /** In the sanitised text, the characters the walk of `s` keeps between two
      masks (or before the first, or after the last) are the characters of
      `s` at that place, unchanged and in order. */
  lemma SanitizeKeepsTextBetweenMasks(p: Pattern, s: string, before: seq<Piece>, kept: seq<Piece>, after: seq<Piece>)
    requires ScanFrom(p, s, 0) == before + kept + after
    requires forall k :: 0 <= k < |kept| ==> kept[k].Kept?
    ensures |Original(before)| + |kept| <= |s|
    ensures Rendered(ScanFrom(p, s, 0))
         == Rendered(before) + s[|Original(before)|..|Original(before)| + |kept|] + Rendered(after)
  {
    KeptTextUnchanged(before, kept, after);
    OriginalAppend(before + kept, after);
    OriginalAppend(before, kept);
    KeptRunLength(kept);
    var a, b, c := Original(before), Original(kept), Original(after);
    assert s == a + b + c;
    assert s[|a|..|a| + |b|] == b;
  }

  /** Text in which no password field starts is logged unchanged. */
  lemma {:induction false} NoFieldUnchanged(p: Pattern, s: string, i: nat)
    requires i <= |s|
    requires forall k :: i <= k <= |s| ==> MatchAt(p, s, k).None?
    ensures Rendered(ScanFrom(p, s, i)) == s[i..]
    decreases |s| - i
  {
    if i < |s| {
      NoFieldUnchanged(p, s, i + 1);
      assert s[i..] == [s[i]] + s[i + 1..];
    }
  }

  /** A field at the start is replaced by the mask, and the rest of the text
      is walked from the field's end. */
  lemma FieldMasked(s: string, e: nat, w: string, v: string)
    requires e <= |s| && FieldShape(s[..e], w, v)
    ensures ScanFrom(AsWritten, s, 0) == [Masked(s[..e])] + ScanFrom(AsWritten, s, e)
    ensures Rendered(ScanFrom(AsWritten, s, 0)) == Mask + Rendered(ScanFrom(AsWritten, s, e))
  {
    assert s[0..e] == s[..e];
    FieldIsMatch(s, 0, e, w, v);
  }

  // ---------------------------------------------------------------------------
  // passwords containing a quote

  /** The password as it appears after serialising it twice: once into the
      `reqBody` string, once with the log record. Characters below U+0020,
      which get `\u`-escapes, are left out. */
  function TwiceEscaped(pw: string): string {
    if |pw| == 0 then [] else TwiceEscapedChar(pw[0]) + TwiceEscaped(pw[1..])
  }

  /** One character of the password after two rounds of escaping. */
  function TwiceEscapedChar(c: char): (t: string)
    ensures |t| == 1 || |t| == 4
  {
    if c == '"' then "\\\\\\\"" else if c == '\\' then "\\\\\\\\" else [c]
  }

  /** The log text of a body whose only field is the password. */
  function PasswordField(pw: string): string {
    Lead + Quote + TwiceEscaped(pw) + Quote
  }

  /** As written, `[^"]*` stops at the escaped quote inside the password, so
      for the password `ab"cd` the match ends early and `cd` is logged. */
  lemma PasswordQuoteLeaks()
    ensures var s := PasswordField("ab\"cd");
      && MatchAt(AsWritten, s, 0) == Some(|s| - 4)
      && s[|s| - 4..] == "cd" + Quote
  {
    var v := "ab\\\\";
    var t := Lead + Quote + v + Quote;
    var rest := "cd" + Quote;
    LeakText();
    assert FieldShape(t, [], v);
    FieldPrefixMatch(t, rest, [], v);
    var s := t + rest;
    assert s[|s| - 4..] == rest;
  }

  /** The log text of the password `ab"cd`: the quote becomes `\\\"`. */
  lemma LeakText()
    ensures PasswordField("ab\"cd") == (Lead + Quote + "ab\\\\" + Quote) + ("cd" + Quote)
  {
    assert TwiceEscaped("ab\"cd") == "ab\\\\\\\"cd";
  }

  /** A password field at the start of the text is matched whole, whatever follows. */
  lemma FieldPrefixMatch(t: string, rest: string, w: string, v: string)
    requires FieldShape(t, w, v)
    ensures MatchAt(AsWritten, t + rest, 0) == Some(|t|)
  {
    assert (t + rest)[0..|t|] == t;
    FieldIsMatch(t + rest, 0, |t|, w, v);
  }

  /** As written, a password without `"` is masked whole: the defect needs
      a quote in the password. */
  lemma QuoteFreePasswordMasked(pw: string, rest: string)
    requires '"' !in pw
    ensures var s := PasswordField(pw) + rest;
      MatchAt(AsWritten, s, 0) == Some(|PasswordField(pw)|)
  {
    TwiceEscapedQuoteFree(pw);
    assert FieldShape(PasswordField(pw), [], TwiceEscaped(pw));
    FieldPrefixMatch(PasswordField(pw), rest, [], TwiceEscaped(pw));
  }

  lemma {:induction false} TwiceEscapedQuoteFree(pw: string)
    requires '"' !in pw
    ensures '"' !in TwiceEscaped(pw)
    decreases |pw|
  {
    if |pw| > 0 {
      assert pw[0] in pw;
      TwiceEscapedQuoteFree(pw[1..]);
    }
  }

  /** With the escape-aware value, the whole field of any password is one
      match, so nothing of the password survives the mask. */
  lemma EscapedPasswordMasked(pw: string, rest: string)
    requires forall k :: 0 <= k < |pw| ==> pw[k] >= ' '
    ensures var s := PasswordField(pw) + rest;
      MatchAt(EscapeAware, s, 0) == Some(|PasswordField(pw)|)
  {
    var s := PasswordField(pw) + rest;
    var start := |Lead| + |Quote|;
    assert s[..|Lead|] == Lead;
    assert s[|Lead|] == '\\';
    SpaceEndIs(s, |Lead|, |Lead|);
    assert s[|Lead|..|Lead| + 2] == Quote;
    assert s[start..start + |TwiceEscaped(pw)| + 2] == TwiceEscaped(pw) + Quote;
    ValueEndOfPassword(pw, s, start);
  }

  lemma {:induction false} ValueEndOfPassword(pw: string, s: string, k: nat)
    requires forall i :: 0 <= i < |pw| ==> pw[i] >= ' '
    requires k + |TwiceEscaped(pw)| + 2 <= |s|
    requires s[k..k + |TwiceEscaped(pw)| + 2] == TwiceEscaped(pw) + Quote
    ensures ValueEnd(s, k) == Some(k + |TwiceEscaped(pw)| + 2)
    decreases |pw|
  {
    if |pw| == 0 {
      assert TwiceEscaped(pw) == [];
      ClosingQuote(s, k);
    } else {
      PasswordStep(pw, s, k);
      ValueEndOfPassword(pw[1..], s, k + |TwiceEscapedChar(pw[0])|);
    }
  }

  /** The walk steps over the escaped form of the password's first
      character, and what follows is the escaped rest and the closing quote. */
  lemma PasswordStep(pw: string, s: string, k: nat)
    requires |pw| > 0 && pw[0] >= ' '
    requires k + |TwiceEscaped(pw)| + 2 <= |s|
    requires s[k..k + |TwiceEscaped(pw)| + 2] == TwiceEscaped(pw) + Quote
    ensures |TwiceEscaped(pw)| == |TwiceEscapedChar(pw[0])| + |TwiceEscaped(pw[1..])|
    ensures var k' := k + |TwiceEscapedChar(pw[0])|;
      && s[k'..k' + |TwiceEscaped(pw[1..])| + 2] == TwiceEscaped(pw[1..]) + Quote
      && ValueEnd(s, k) == ValueEnd(s, k')
  {
    var head := TwiceEscapedChar(pw[0]);
    var tail := TwiceEscaped(pw[1..]);
    assert TwiceEscaped(pw) == head + tail;
    HeadTailSlices(s, k, head, tail, Quote);
    UnitStep(s, k, pw[0]);
  }

  /** The escaped quote ends the value. */
  lemma ClosingQuote(s: string, k: nat)
    requires k + 2 <= |s| && s[k..k + 2] == Quote
    ensures ValueEnd(s, k) == Some(k + 2)
  {
    assert s[k] == s[k..k + 2][0] && s[k + 1] == s[k..k + 2][1];
  }

  /** A slice that is `head + tail + q` starts with `head`, then `tail + q`. */
  lemma HeadTailSlices(s: string, k: nat, head: string, tail: string, q: string)
    requires k + |head| + |tail| + |q| <= |s|
    requires s[k..k + |head| + |tail| + |q|] == head + tail + q
    ensures s[k..k + |head|] == head
    ensures s[k + |head|..k + |head| + |tail| + |q|] == tail + q
  {
    assert head + tail + q == head + (tail + q);
    SplitSlice(s, k, head, tail + q);
  }

  /** One character of the password: the walk steps over its escaped form. */
  lemma UnitStep(s: string, k: nat, c: char)
    requires c >= ' '
    requires k + |TwiceEscapedChar(c)| <= |s| && s[k..k + |TwiceEscapedChar(c)|] == TwiceEscapedChar(c)
    ensures ValueEnd(s, k) == ValueEnd(s, k + |TwiceEscapedChar(c)|)
  {
    if c == '"' || c == '\\' {
      EscapeUnitStep(s, k);
    } else {
      assert s[k] == s[k..k + 1][0];
      PlainUnitStep(s, k);
    }
  }

  /** `\\\"` and `\\\\` each stand for one character of the password. */
  lemma EscapeUnitStep(s: string, k: nat)
    requires k + 4 <= |s| && (s[k..k + 4] == "\\\\\\\"" || s[k..k + 4] == "\\\\\\\\")
    ensures ValueEnd(s, k) == ValueEnd(s, k + 4)
  {
    assert s[k] == s[k..k + 4][0] && s[k + 1] == s[k..k + 4][1];
    assert s[k + 2] == s[k..k + 4][2] && s[k + 3] == s[k..k + 4][3];
  }

  /** A character other than a backslash or a quote stands for itself. */
  lemma PlainUnitStep(s: string, k: nat)
    requires k < |s| && s[k] != '\\' && s[k] != '"'
    ensures ValueEnd(s, k) == ValueEnd(s, k + 1)
  {
  }

}
