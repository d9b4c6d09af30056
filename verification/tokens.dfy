/**
 * Token extraction for `CsvRetargetPlayer.PlayTokensJson`: the quoted-substring
 * scan of `MiniJsonToStrings` (a regular-expression scan, not a JSON parser)
 * and the fallback split on runs of `|`, `,` and white space.
 */
module Tokens {
  import opened Wrappers

  /** .NET `Char.IsWhiteSpace`; the same set is matched by `\s` in .NET regular expressions. */
  predicate IsWhiteSpace(c: char) {
    || c == ' '
    || ('\t' <= c <= '\r')
    || c == '\U{85}' || c == '\U{A0}' || c == '\U{1680}'
    || ('\U{2000}' <= c <= '\U{200A}')
    || c == '\U{2028}' || c == '\U{2029}' || c == '\U{202F}' || c == '\U{205F}' || c == '\U{3000}'
  }

  /** `string.IsNullOrWhiteSpace` of a non-null string. */
  predicate Blank(s: string) {
    forall i :: 0 <= i < |s| ==> IsWhiteSpace(s[i])
  }

  /** `string.IsNullOrWhiteSpace` of a nullable string. */
  predicate NullOrBlank(s: Option<string>) {
    s.None? || Blank(s.value)
  }

  /** How many white-space characters start `s`. */
  function LeadingBlanks(s: string): (n: nat)
    ensures n <= |s|
    ensures forall i :: 0 <= i < n ==> IsWhiteSpace(s[i])
    ensures n == |s| || !IsWhiteSpace(s[n])
    decreases |s|
  {
    if s == [] || !IsWhiteSpace(s[0]) then 0 else 1 + LeadingBlanks(s[1..])
  }

  /** Where the trailing white space of `s` begins. */
  function TrailingBlanksStart(s: string): (m: nat)
    ensures m <= |s|
    ensures forall i :: m <= i < |s| ==> IsWhiteSpace(s[i])
    ensures m == 0 || !IsWhiteSpace(s[m - 1])
    decreases |s|
  {
    if s == [] || !IsWhiteSpace(s[|s| - 1]) then |s| else TrailingBlanksStart(s[..|s| - 1])
  }

  /**
   * `string.Trim()`: what lies between the leading and the trailing white space of `s`;
   * empty exactly when `s` is blank, otherwise starting and ending with a non-blank, and
   * every character dropped is white space.
   */
  function Trim(s: string): (r: string)
    ensures r == [] <==> Blank(s)
    ensures r != [] ==> !IsWhiteSpace(r[0]) && !IsWhiteSpace(r[|r| - 1])
    ensures LeadingBlanks(s) + |r| <= |s|
    ensures r != [] ==> r == s[LeadingBlanks(s)..LeadingBlanks(s) + |r|]
    ensures r != [] ==> forall i :: 0 <= i < |s| && !(LeadingBlanks(s) <= i < LeadingBlanks(s) + |r|) ==> IsWhiteSpace(s[i])
  {
    var a := LeadingBlanks(s);
    var b := TrailingBlanksStart(s);
    if a < b then s[a..b] else []
  }

  // ----- the quoted-substring scan ---------------------------------------------------------

  /** The position of the first `"` in `u`, if there is one. */
  function FirstQuote(u: string): (r: Option<nat>)
    ensures r.Some? ==> r.value < |u| && u[r.value] == '"' && '"' !in u[..r.value]
    ensures r.None? ==> '"' !in u
    decreases |u|
  {
    if u == [] then None
    else if u[0] == '"' then Some(0)
    else match FirstQuote(u[1..])
      case None => None
      case Some(k) => assert u[..k + 1] == [u[0]] + u[1..][..k]; Some(k + 1)
  }

  /**
   * The captures of the .NET pattern `"([^"]+)"` over `s`, left to right: at each position
   * a match needs a `"`, at least one other character, and the next `"`; after a match the
   * scan resumes behind its closing quote, after a failure at the next position.
   */
  function Quoted(s: string): (r: seq<string>)
    ensures forall k :: 0 <= k < |r| ==> r[k] != [] && '"' !in r[k]
    decreases |s|
  {
    if s == [] then []
    else if s[0] == '"' then
      match FirstQuote(s[1..])
      case Some(q) =>
        if q > 0 then
          assert s[1..q + 1] == s[1..][..q];
          [s[1..q + 1]] + Quoted(s[q + 2..])
        else Quoted(s[1..])
      case None => Quoted(s[1..])
    else Quoted(s[1..])
  }

  /** What `MiniJsonToStrings` answers: null unless the trimmed input starts with `[`. */
  function ScanJson(json: Option<string>): (r: Option<seq<string>>)
    ensures NullOrBlank(json) ==> r.None?
    ensures r.Some? ==> forall k :: 0 <= k < |r.value| ==> r.value[k] != [] && '"' !in r.value[k]
  {
    if NullOrBlank(json) then None
    else
      var t := Trim(json.value);
      if t[0] == '[' then Some(Quoted(t)) else None
  }

  /** Where the closing quote of a capture that opens at `i` is found. */
  lemma FirstQuoteAt(u: string, k: nat)
    requires k < |u| && u[k] == '"' && '"' !in u[..k]
    ensures FirstQuote(u) == Some(k)
  {
    assert u[k] in u;
  }

  /** One step of the scan at a character other than `"`. */
  lemma QuotedAtOther(t: string, i: nat)
    requires i < |t| && t[i] != '"'
    ensures Quoted(t[i..]) == Quoted(t[i + 1..])
  {
    assert t[i..][1..] == t[i + 1..];
  }

  /** One step of the scan at a `"` that opens a capture closed at `j`. */
  lemma QuotedAtCapture(t: string, i: nat, j: nat)
    requires i + 1 < j < |t| && t[i] == '"' && t[j] == '"' && '"' !in t[i + 1..j]
    ensures Quoted(t[i..]) == [t[i + 1..j]] + Quoted(t[j + 1..])
  {
    var u := t[i..];
    assert u[1..] == t[i + 1..] && u[1..][..j - i - 1] == t[i + 1..j];
    FirstQuoteAt(u[1..], j - i - 1);
    assert u[1..j - i] == t[i + 1..j];
    assert u[j - i + 1..] == t[j + 1..];
  }

  /** One step of the scan at a `"` that opens no capture: `""`, or no closing quote. */
  lemma QuotedAtFailure(t: string, i: nat, j: nat)
    requires i + 1 <= j <= |t| && t[i] == '"' && '"' !in t[i + 1..j]
    requires j == |t| || j == i + 1
    requires j < |t| ==> t[j] == '"'
    ensures Quoted(t[i..]) == Quoted(t[i + 1..])
  {
    var u := t[i..];
    assert u[1..] == t[i + 1..];
    if j < |t| {
      assert u[1..][..0] == [];
      FirstQuoteAt(u[1..], 0);
    } else {
      assert t[i + 1..] == t[i + 1..j];
    }
  }

  /**
   * `MiniJsonToStrings`: null for a null or blank input and for one whose trimmed form does
   * not start with `[`; otherwise the quoted captures of the trimmed input, in order.
   */
  method MiniJsonToStrings(json: Option<string>) returns (r: Option<seq<string>>)
    ensures r == ScanJson(json)
    ensures r.Some? ==> forall k :: 0 <= k < |r.value| ==> r.value[k] != [] && '"' !in r.value[k]
  {
    if NullOrBlank(json) {
      return None;
    }
    var t := Trim(json.value);
    if t[0] != '[' {
      return None;
    }
    var list := ScanQuoted(t);
    r := Some(list);
  }

  /** The `Regex.Matches` loop of `MiniJsonToStrings`, appending each capture to a list. */
  method ScanQuoted(t: string) returns (list: seq<string>)
    ensures list == Quoted(t)
  {
    list := [];
    var i := 0;
    while i < |t|
      invariant 0 <= i <= |t|
      invariant list + Quoted(t[i..]) == Quoted(t)
      decreases |t| - i
    {
      if t[i] == '"' {
        var j := ClosingQuote(t, i + 1);
        if j < |t| && j > i + 1 {
          QuotedAtCapture(t, i, j);
          assert (list + [t[i + 1..j]]) + Quoted(t[j + 1..]) == list + ([t[i + 1..j]] + Quoted(t[j + 1..]));
          list := list + [t[i + 1..j]];
          i := j + 1;
        } else {
          QuotedAtFailure(t, i, j);
          i := i + 1;
        }
      } else {
        QuotedAtOther(t, i);
        i := i + 1;
      }
    }
    assert t[i..] == [];
  }

  /** The position of the next `"` at or after `from`, or `|t|` when there is none. */
  method ClosingQuote(t: string, from: nat) returns (j: nat)
    requires from <= |t|
    ensures from <= j <= |t| && '"' !in t[from..j]
    ensures j < |t| ==> t[j] == '"'
  {
    j := from;
    while j < |t| && t[j] != '"'
      invariant from <= j <= |t|
      invariant '"' !in t[from..j]
      decreases |t| - j
    {
      assert t[from..j + 1] == t[from..j] + [t[j]];
      j := j + 1;
    }
  }

  /** A capture is taken whole: `"t"` followed by anything yields `t` first. */
  lemma QuotedCons(t: string, rest: string)
    requires t != [] && '"' !in t
    ensures Quoted(['"'] + t + ['"'] + rest) == [t] + Quoted(rest)
  {
    var s := ['"'] + t + ['"'] + rest;
    assert s[1..] == t + ['"'] + rest;
    assert s[1..][..|t|] == t;
    FirstQuoteAt(s[1..], |t|);
    assert s[1..|t| + 1] == t;
    assert s[|t| + 2..] == rest;
  }

  /** Characters other than `"` are skipped by the scan. */
  lemma QuotedSkip(c: char, rest: string)
    requires c != '"'
    ensures Quoted([c] + rest) == Quoted(rest)
  {
    assert ([c] + rest)[1..] == rest;
  }

  /** A string without `"` yields no capture. */
  lemma {:induction false} QuotedNone(s: string)
    requires '"' !in s
    ensures Quoted(s) == []
    decreases |s|
  {
    if s != [] {
      assert s == [s[0]] + s[1..];
      QuotedSkip(s[0], s[1..]);
      QuotedNone(s[1..]);
    }
  }

  /** The body of a JSON array of strings: `"a","b",…` (no escapes). */
  function QuoteJoin(ts: seq<string>): string
    decreases |ts|
  {
    if ts == [] then ""
    else if |ts| == 1 then ['"'] + ts[0] + ['"']
    else ['"'] + ts[0] + ['"'] + [','] + QuoteJoin(ts[1..])
  }

  /** The JSON array text `["a","b",…]` a sender produces for the tokens `ts`. */
  function EncodeJsonArray(ts: seq<string>): string {
    ['['] + QuoteJoin(ts) + [']']
  }

  lemma {:induction false} QuotedQuoteJoin(ts: seq<string>)
    requires forall k :: 0 <= k < |ts| ==> ts[k] != [] && '"' !in ts[k]
    ensures Quoted(QuoteJoin(ts) + [']']) == ts
    decreases |ts|
  {
    if ts == [] {
      assert QuoteJoin(ts) + [']'] == [']'] + [];
      QuotedSkip(']', []);
    } else if |ts| == 1 {
      assert QuoteJoin(ts) + [']'] == ['"'] + ts[0] + ['"'] + [']'];
      QuotedCons(ts[0], [']']);
      QuotedSkip(']', []);
    } else {
      var rest := QuoteJoin(ts[1..]) + [']'];
      assert QuoteJoin(ts) + [']'] == ['"'] + ts[0] + ['"'] + ([','] + rest);
      QuotedCons(ts[0], [','] + rest);
      QuotedSkip(',', rest);
      QuotedQuoteJoin(ts[1..]);
      assert [ts[0]] + ts[1..] == ts;
    }
  }

  /**
   * Round trip: a JSON array of non-empty strings without `"` is scanned back into exactly
   * its elements, in order.
   */
  lemma ScanJsonRoundTrip(ts: seq<string>)
    requires forall k :: 0 <= k < |ts| ==> ts[k] != [] && '"' !in ts[k]
    ensures ScanJson(Some(EncodeJsonArray(ts))) == Some(ts)
  {
    var e := EncodeJsonArray(ts);
    assert !IsWhiteSpace(e[0]);
    assert !Blank(e);
    assert e[|e| - 1] == ']';
    assert LeadingBlanks(e) == 0 && TrailingBlanksStart(e) == |e|;
    assert e[0..|e|] == e;
    assert Trim(e) == e;
    assert e[1..] == QuoteJoin(ts) + [']'];
    QuotedSkip('[', e[1..]);
    assert e == ['['] + e[1..];
    QuotedQuoteJoin(ts);
  }

  // ----- the delimiter split ---------------------------------------------------------------

  /** A character of the class `[|\s,]`. */
  predicate IsDelimiter(c: char) {
    c == '|' || c == ',' || IsWhiteSpace(c)
  }

  /** A non-empty string without delimiters. */
  predicate IsWord(w: string) {
    w != [] && forall i :: 0 <= i < |w| ==> !IsDelimiter(w[i])
  }

  /** Length of the run of non-delimiters that starts `s`. */
  function WordLength(s: string): (n: nat)
    ensures n <= |s|
    ensures forall i :: 0 <= i < n ==> !IsDelimiter(s[i])
    ensures n == |s| || IsDelimiter(s[n])
    decreases |s|
  {
    if s == [] || IsDelimiter(s[0]) then 0 else 1 + WordLength(s[1..])
  }

  /**
   * `Regex.Split(s, "[|\s,]+")` with the blank pieces removed: the maximal runs of
   * non-delimiter characters, left to right.
   */
  function SplitDelimited(s: string): (r: seq<string>)
    ensures forall k :: 0 <= k < |r| ==> IsWord(r[k])
    decreases |s|
  {
    if s == [] then []
    else if IsDelimiter(s[0]) then SplitDelimited(s[1..])
    else
      var n := WordLength(s);
      [s[..n]] + SplitDelimited(s[n..])
  }

  /** The characters of `s` that are not delimiters, in order. */
  function NonDelimiters(s: string): string
    decreases |s|
  {
    if s == [] then [] else (if IsDelimiter(s[0]) then [] else [s[0]]) + NonDelimiters(s[1..])
  }

  /** The concatenation of a list of strings. */
  function Concat(ts: seq<string>): string
    decreases |ts|
  {
    if ts == [] then [] else ts[0] + Concat(ts[1..])
  }

  lemma {:induction false} NonDelimitersAppend(a: string, b: string)
    ensures NonDelimiters(a + b) == NonDelimiters(a) + NonDelimiters(b)
    decreases |a|
  {
    if a != [] {
      assert (a + b)[1..] == a[1..] + b;
      NonDelimitersAppend(a[1..], b);
    } else {
      assert a + b == b;
    }
  }

  lemma {:induction false} NonDelimitersOfWord(w: string)
    requires forall i :: 0 <= i < |w| ==> !IsDelimiter(w[i])
    ensures NonDelimiters(w) == w
    decreases |w|
  {
    if w != [] {
      NonDelimitersOfWord(w[1..]);
    }
  }

  /**
   * The split loses nothing but delimiters and keeps the input order: the tokens, put back
   * together, are the non-delimiter characters of the input.
   */
  lemma {:induction false} SplitDelimitedKeepsOrder(s: string)
    ensures Concat(SplitDelimited(s)) == NonDelimiters(s)
    decreases |s|
  {
    if s == [] {
    } else if IsDelimiter(s[0]) {
      SplitDelimitedKeepsOrder(s[1..]);
    } else {
      var n := WordLength(s);
      var r := SplitDelimited(s);
      assert r[0] == s[..n] && r[1..] == SplitDelimited(s[n..]);
      SplitDelimitedKeepsOrder(s[n..]);
      assert s == s[..n] + s[n..];
      NonDelimitersAppend(s[..n], s[n..]);
      NonDelimitersOfWord(s[..n]);
    }
  }

  /** Tokens joined with `|`, as a delimited payload. */
  function JoinPipe(ts: seq<string>): string
    decreases |ts|
  {
    if ts == [] then ""
    else if |ts| == 1 then ts[0]
    else ts[0] + ['|'] + JoinPipe(ts[1..])
  }

  lemma {:induction false} WordLengthOf(w: string, rest: string)
    requires forall i :: 0 <= i < |w| ==> !IsDelimiter(w[i])
    requires rest == [] || IsDelimiter(rest[0])
    ensures WordLength(w + rest) == |w|
    decreases |w|
  {
    if w == [] {
      assert w + rest == rest;
    } else {
      assert (w + rest)[1..] == w[1..] + rest;
      WordLengthOf(w[1..], rest);
    }
  }

  lemma SplitWordThen(w: string, rest: string)
    requires IsWord(w)
    requires rest == [] || IsDelimiter(rest[0])
    ensures SplitDelimited(w + rest) == [w] + SplitDelimited(rest)
  {
    var s := w + rest;
    WordLengthOf(w, rest);
    assert s[..|w|] == w && s[|w|..] == rest;
  }

  /** Round trip: words joined with `|` split back into exactly those words. */
  lemma {:induction false} SplitJoinPipe(ts: seq<string>)
    requires forall k :: 0 <= k < |ts| ==> IsWord(ts[k])
    ensures SplitDelimited(JoinPipe(ts)) == ts
    decreases |ts|
  {
    if |ts| == 1 {
      SplitWordThen(ts[0], []);
      assert ts[0] + [] == ts[0];
    } else if |ts| > 1 {
      var rest := JoinPipe(ts[1..]);
      assert JoinPipe(ts) == ts[0] + (['|'] + rest);
      SplitWordThen(ts[0], ['|'] + rest);
      assert (['|'] + rest)[1..] == rest;
      SplitJoinPipe(ts[1..]);
      assert [ts[0]] + ts[1..] == ts;
    }
  }

  // ----- PlayTokens' filter -----------------------------------------------------------------

  /**
   * `tokens.Where(t => !string.IsNullOrWhiteSpace(t))`: the tokens that are not blank, in
   * their original order; no blank token survives and no other token is dropped.
   */
  function NonBlank(ts: seq<string>): (r: seq<string>)
    ensures |r| <= |ts|
    ensures forall k :: 0 <= k < |r| ==> !Blank(r[k])
    ensures forall k :: 0 <= k < |ts| && !Blank(ts[k]) ==> ts[k] in r
    ensures forall t :: t in r ==> t in ts
    decreases |ts|
  {
    if ts == [] then []
    else if Blank(ts[0]) then NonBlank(ts[1..])
    else [ts[0]] + NonBlank(ts[1..])
  }

  /** The filter keeps token order: filtering two halves filters the whole. */
  lemma {:induction false} NonBlankAppend(a: seq<string>, b: seq<string>)
    ensures NonBlank(a + b) == NonBlank(a) + NonBlank(b)
    decreases |a|
  {
    if a == [] {
      assert a + b == b;
    } else {
      assert (a + b)[0] == a[0] && (a + b)[1..] == a[1..] + b;
      NonBlankAppend(a[1..], b);
    }
  }

  /**
   * The filter adds nothing and loses no token that is not blank: each such token occurs in
   * the result as often as in the input, and no blank token occurs.
   */
  lemma {:induction false} NonBlankCount(ts: seq<string>)
    ensures forall t :: multiset(NonBlank(ts))[t] == if Blank(t) then 0 else multiset(ts)[t]
    decreases |ts|
  {
    if ts != [] {
      NonBlankCount(ts[1..]);
      assert ts == [ts[0]] + ts[1..];
      assert multiset(ts) == multiset{ts[0]} + multiset(ts[1..]);
    }
  }

  /** The filter keeps a list of words as it is: the delimiter split yields no blank token. */
  lemma {:induction false} NonBlankOfWords(ts: seq<string>)
    requires forall k :: 0 <= k < |ts| ==> IsWord(ts[k])
    ensures NonBlank(ts) == ts
    decreases |ts|
  {
    if ts != [] {
      assert !IsDelimiter(ts[0][0]);
      assert !Blank(ts[0]);
      NonBlankOfWords(ts[1..]);
    }
  }

  // ----- PlayTokensJson's choice ------------------------------------------------------------

  /**
   * The tokens `PlayTokensJson` hands to `PlayTokens`: the quoted scan when it finds at least
   * one token, otherwise the delimiter split of the payload (a null payload splits as "").
   */
  function PayloadTokens(payload: Option<string>): (r: seq<string>)
    ensures forall k :: 0 <= k < |r| ==> r[k] != []
  {
    var arr := ScanJson(payload);
    if arr.Some? && |arr.value| > 0 then arr.value
    else SplitDelimited(if payload.None? then "" else payload.value)
  }

  /** A JSON array of at least one non-empty, quote-free string yields exactly its elements. */
  lemma PayloadJsonArray(ts: seq<string>)
    requires ts != []
    requires forall k :: 0 <= k < |ts| ==> ts[k] != [] && '"' !in ts[k]
    ensures PayloadTokens(Some(EncodeJsonArray(ts))) == ts
  {
    ScanJsonRoundTrip(ts);
  }

  /** The quoted scan finds nothing in a `|`-joined payload of words without `"`. */
  lemma PipePayloadScansNothing(ts: seq<string>)
    requires forall k :: 0 <= k < |ts| ==> '"' !in ts[k]
    ensures ScanJson(Some(JoinPipe(ts))).None? || ScanJson(Some(JoinPipe(ts))).value == []
  {
    var s := JoinPipe(ts);
    NoQuoteInJoinPipe(ts);
    if !NullOrBlank(Some(s)) {
      var t := Trim(s);
      assert forall c :: c in t ==> c in s;
      QuotedNone(t);
    }
  }

  /** A `|`-delimited payload of words without `"` yields exactly its words. */
  lemma PayloadPipeDelimited(ts: seq<string>)
    requires forall k :: 0 <= k < |ts| ==> IsWord(ts[k]) && '"' !in ts[k]
    ensures PayloadTokens(Some(JoinPipe(ts))) == ts
  {
    PipePayloadScansNothing(ts);
    SplitJoinPipe(ts);
  }

  lemma {:induction false} NoQuoteInJoinPipe(ts: seq<string>)
    requires forall k :: 0 <= k < |ts| ==> '"' !in ts[k]
    ensures '"' !in JoinPipe(ts)
    decreases |ts|
  {
    if |ts| > 1 {
      NoQuoteInJoinPipe(ts[1..]);
    }
  }
}
