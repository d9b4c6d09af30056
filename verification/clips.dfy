/**
 * Clip resolution and sequence building of `CsvRetargetPlayer`: the pure steps of
 * `LoadCsvSafe` (line filter and field split), the `ToDictionary` step of
 * `LoadGloss2AnimMapSafe`, the token-to-file rule, and the sequence that
 * `BuildSequenceFromTokensEnumerable` assembles.
 */
module Clips {
  import opened Wrappers
  import Tokens

  /** One row of a clip file: the channel values of one tick. */
  type Frame = seq<real>

  /** A reader of clip files by file name: `None` when the clip is missing or unusable. */
  type ClipLoader = string -> Option<seq<Frame>>

  // ----- LoadCsvSafe: line filter and field split ---------------------------------------------

  /** A line that is neither blank nor a `#` comment. */
  predicate IsDataLine(l: string) {
    !Tokens.Blank(l) && !(|l| > 0 && l[0] == '#')
  }

  /** The data lines of a clip file, in file order. */
  function DataLines(lines: seq<string>): (r: seq<string>)
    ensures |r| <= |lines|
    ensures forall k :: 0 <= k < |r| ==> IsDataLine(r[k])
    ensures forall k :: 0 <= k < |lines| && IsDataLine(lines[k]) ==> lines[k] in r
    decreases |lines|
  {
    if lines == [] then []
    else (if IsDataLine(lines[0]) then [lines[0]] else []) + DataLines(lines[1..])
  }

  /** The filter keeps file order: filtering two halves filters the whole. */
  lemma {:induction false} DataLinesAppend(a: seq<string>, b: seq<string>)
    ensures DataLines(a + b) == DataLines(a) + DataLines(b)
    decreases |a|
  {
    if a == [] {
      assert a + b == b;
    } else {
      assert (a + b)[0] == a[0] && (a + b)[1..] == a[1..] + b;
      DataLinesAppend(a[1..], b);
    }
  }

  /**
   * The filter adds nothing and loses no data line: each data line occurs in the result as
   * often as in the file, and no other line occurs.
   */
  lemma {:induction false} DataLinesCount(lines: seq<string>)
    ensures forall l :: multiset(DataLines(lines))[l] == if IsDataLine(l) then multiset(lines)[l] else 0
    decreases |lines|
  {
    if lines != [] {
      DataLinesCount(lines[1..]);
      assert lines == [lines[0]] + lines[1..];
      assert multiset(lines) == multiset{lines[0]} + multiset(lines[1..]);
    }
  }

  /** `line.Split(',')`: the comma-separated fields, one more than the commas. */
  function SplitFields(l: string): (r: seq<string>)
    ensures |r| == multiset(l)[','] + 1
    ensures forall k :: 0 <= k < |r| ==> ',' !in r[k]
    decreases |l|
  {
    if l == [] then [""]
    else
      var rest := SplitFields(l[1..]);
      assert l == [l[0]] + l[1..];
      if l[0] == ',' then [""] + rest
      else
        assert ',' !in [l[0]] + rest[0];
        [[l[0]] + rest[0]] + rest[1..]
  }

  /** Fields written back with `,` between them. */
  function JoinFields(fs: seq<string>): string
    requires |fs| >= 1
    decreases |fs|
  {
    if |fs| == 1 then fs[0] else fs[0] + [','] + JoinFields(fs[1..])
  }

  /** The split loses nothing: joining the fields with `,` gives the line back. */
  lemma {:induction false} JoinSplitFields(l: string)
    ensures JoinFields(SplitFields(l)) == l
    decreases |l|
  {
    if l != [] {
      var rest := SplitFields(l[1..]);
      JoinSplitFields(l[1..]);
      if l[0] == ',' {
        assert SplitFields(l) == [""] + rest;
        assert SplitFields(l)[1..] == rest;
      } else {
        var r := SplitFields(l);
        assert r == [[l[0]] + rest[0]] + rest[1..];
        if |rest| == 1 {
          assert JoinFields(r) == [l[0]] + rest[0];
        } else {
          assert r[1..] == rest[1..];
          assert JoinFields(rest) == rest[0] + [','] + JoinFields(rest[1..]);
        }
      }
    }
  }

  /**
   * `LoadCsvSafe` on the lines of a clip file (`None`: the file does not exist), with `parse`
   * standing for `float.Parse`: null when no data line is left, otherwise one frame per data
   * line, in order, holding one value per comma-separated field.
   */
  function DecodeCsv(file: Option<seq<string>>, parse: string -> real): (r: Option<seq<Frame>>)
    ensures r.None? <==> file.None? || DataLines(file.value) == []
    ensures r.Some? ==> |r.value| == |DataLines(file.value)|
    ensures r.Some? ==> forall k :: 0 <= k < |r.value| ==>
      |r.value[k]| == multiset(DataLines(file.value)[k])[','] + 1
    ensures r.Some? ==> forall k, j :: 0 <= k < |r.value| && 0 <= j < |r.value[k]| ==>
      r.value[k][j] == parse(SplitFields(DataLines(file.value)[k])[j])
  {
    if file.None? then None
    else
      var lines := DataLines(file.value);
      if lines == [] then None
      else Some(seq(|lines|, k requires 0 <= k < |lines| =>
        var fields := SplitFields(lines[k]);
        seq(|fields|, j requires 0 <= j < |fields| => parse(fields[j]))))
  }

  // ----- LoadGloss2AnimMapSafe: the ToDictionary step ----------------------------------------

  /**
   * A record of the gloss table; only `key` and `path` are read, and either may be null (a
   * record without that field).
   */
  datatype Entry = Entry(key: Option<string>, path: Option<string>)

  /** The `Dictionary<string, string>` the table becomes: a key may map to a null path. */
  type GlossMap = map<string, Option<string>>

  /** Every entry has a key and no key occurs twice. */
  predicate KeysUsable(es: seq<Entry>) {
    && (forall i :: 0 <= i < |es| ==> es[i].key.Some?)
    && (forall i, j :: 0 <= i < j < |es| ==> es[i].key != es[j].key)
  }

  /** The keys of the entries that have one. */
  function KeySet(es: seq<Entry>): set<string> {
    set i | 0 <= i < |es| && es[i].key.Some? :: es[i].key.value
  }

  /**
   * `entries.ToDictionary(e => e.key, e => e.path)` inside the `try` of
   * `LoadGloss2AnimMapSafe`, adding the entries in order to `acc`: a null key or a key
   * already present throws, and the `catch` answers null.
   */
  function ToDictionaryFrom(es: seq<Entry>, acc: GlossMap): Option<GlossMap>
    decreases |es|
  {
    if es == [] then Some(acc)
    else if es[0].key.None? || es[0].key.value in acc then None
    else ToDictionaryFrom(es[1..], acc[es[0].key.value := es[0].path])
  }

  /** The key set of a non-empty list of entries whose first key is present. */
  lemma KeysUsableCons(es: seq<Entry>)
    requires es != [] && es[0].key.Some?
    ensures KeySet(es) == {es[0].key.value} + KeySet(es[1..])
    ensures KeysUsable(es) <==> KeysUsable(es[1..]) && es[0].key.value !in KeySet(es[1..])
  {
    var t := es[1..];
    assert forall i :: 0 <= i < |t| ==> t[i] == es[i + 1];
    if KeysUsable(t) && es[0].key.value !in KeySet(t) {
      forall i, j | 0 <= i < j < |es| ensures es[i].key != es[j].key {
        if i == 0 {
          assert t[j - 1].key.value in KeySet(t);
        } else {
          assert t[i - 1].key != t[j - 1].key;
        }
      }
    }
  }

  /**
   * The dictionary exists exactly when every key is present, no key repeats and none is
   * already in `acc`; then it maps every key to its entry's path and keeps `acc`.
   */
  lemma {:induction false} ToDictionaryFromSpec(es: seq<Entry>, acc: GlossMap)
    ensures ToDictionaryFrom(es, acc).Some? <==> KeysUsable(es) && KeySet(es) !! acc.Keys
    ensures ToDictionaryFrom(es, acc).Some? ==> ToDictionaryFrom(es, acc).value.Keys == acc.Keys + KeySet(es)
    ensures ToDictionaryFrom(es, acc).Some? ==> forall i :: 0 <= i < |es| ==> ToDictionaryFrom(es, acc).value[es[i].key.value] == es[i].path
    ensures ToDictionaryFrom(es, acc).Some? ==> forall x :: x in acc ==> ToDictionaryFrom(es, acc).value[x] == acc[x]
    decreases |es|
  {
    if es != [] {
      if es[0].key.None? {
        assert !KeysUsable(es);
      } else {
        var k := es[0].key.value;
        KeysUsableCons(es);
        if k in acc {
          assert k in KeySet(es);
        } else {
          var acc' := acc[k := es[0].path];
          ToDictionaryFromSpec(es[1..], acc');
          var r := ToDictionaryFrom(es, acc);
          if r.Some? {
            forall i | 0 <= i < |es| ensures r.value[es[i].key.value] == es[i].path {
              if i > 0 {
                assert es[1..][i - 1] == es[i];
              } else {
                assert k in acc';
              }
            }
          }
        }
      }
    }
  }

  /**
   * `LoadGloss2AnimMapSafe`, given the parsed table (`None`: the file is missing, the JSON
   * does not parse, or it has no `entries`); see `LoadGlossMapSpec`.
   */
  function LoadGlossMap(entries: Option<seq<Entry>>): Option<GlossMap> {
    if entries.None? then None else ToDictionaryFrom(entries.value, map[])
  }

  /**
   * There is a map exactly when the table was read and its keys are all present and
   * distinct (a null or repeated key makes `ToDictionary` throw, and the whole map is
   * dropped); the map's keys are then the table's keys, each mapped to its entry's path.
   */
  lemma LoadGlossMapSpec(entries: Option<seq<Entry>>)
    ensures LoadGlossMap(entries).Some? <==> entries.Some? && KeysUsable(entries.value)
    ensures LoadGlossMap(entries).Some? ==> LoadGlossMap(entries).value.Keys == KeySet(entries.value)
    ensures LoadGlossMap(entries).Some? ==> forall i :: 0 <= i < |entries.value| ==>
      LoadGlossMap(entries).value[entries.value[i].key.value] == entries.value[i].path
  {
    if entries.Some? {
      ToDictionaryFromSpec(entries.value, map[]);
    }
  }

  // ----- token to clip file ------------------------------------------------------------------

  /** The file an unmapped token is looked up under. */
  function DefaultFileName(tk: string): string {
    tk + "_normalized.csv"
  }

  /**
   * The clip file of a token: its gloss-map entry if there is one (which may be null),
   * otherwise the default name.
   */
  function ResolveFile(gloss: Option<GlossMap>, tk: string): (file: Option<string>)
    ensures gloss.Some? && tk in gloss.value ==> file == gloss.value[tk]
    ensures gloss.None? || tk !in gloss.value ==> file == Some(DefaultFileName(tk))
  {
    if gloss.Some? && tk in gloss.value then gloss.value[tk] else Some(DefaultFileName(tk))
  }

  /**
   * The path check `Path.Combine` applies to a resolved file name: true when the name holds
   * a character the runtime refuses. Which characters that is depends on the runtime and the
   * platform (NUL is one), so the check is a parameter.
   */
  type PathCheck = string -> bool

  /** Whether `Path.Combine(BaseDir, file)` throws: the file is null, or its name is refused. */
  predicate CombineThrows(rejects: PathCheck, file: Option<string>) {
    file.None? || rejects(file.value)
  }

  /**
   * Whether building from `tokens` throws: some token resolves to a null file or to a name
   * the path check refuses, and `Path.Combine` throws before anything is stored.
   */
  predicate BuildThrows(gloss: Option<GlossMap>, rejects: PathCheck, tokens: seq<string>) {
    exists k :: 0 <= k < |tokens| && CombineThrows(rejects, ResolveFile(gloss, tokens[k]))
  }

  /**
   * Under a loaded table, a token resolves to a null file exactly when the table has a
   * record with that key and a null path; without a table no token does.
   */
  lemma NullFileIffNullPath(entries: Option<seq<Entry>>, tk: string)
    ensures LoadGlossMap(entries).None? ==> ResolveFile(LoadGlossMap(entries), tk).Some?
    ensures LoadGlossMap(entries).Some? ==>
      (ResolveFile(LoadGlossMap(entries), tk).None? <==>
        exists i :: 0 <= i < |entries.value| && entries.value[i].key == Some(tk) && entries.value[i].path.None?)
  {
    var gloss := LoadGlossMap(entries);
    if gloss.Some? {
      LoadGlossMapSpec(entries);
      var es := entries.value;
      if tk in gloss.value {
        var i :| 0 <= i < |es| && es[i].key.Some? && es[i].key.value == tk;
        assert gloss.value[tk] == es[i].path;
        forall j | 0 <= j < |es| && es[j].key == Some(tk) ensures es[j].path == es[i].path {
          assert gloss.value[es[j].key.value] == es[j].path;
        }
      } else {
        forall j | 0 <= j < |es| ensures es[j].key != Some(tk) {
          assert es[j].key.value in KeySet(es);
        }
      }
    }
  }

  /** Distinct unmapped tokens never share a clip file. */
  lemma DefaultFileNamesDistinct(a: string, b: string)
    requires a != b
    ensures DefaultFileName(a) != DefaultFileName(b)
  {
    if |a| == |b| {
      assert DefaultFileName(a)[..|a|] == a && DefaultFileName(b)[..|b|] == b;
    } else {
      assert |DefaultFileName(a)| != |DefaultFileName(b)|;
    }
  }

  // ----- the sequence ------------------------------------------------------------------------

  /**
   * The clip a token resolves to, when it is present and has at least one frame. A null file
   * gives none here, but a build that meets one throws (`BuildThrows`) and keeps nothing.
   */
  function UsableClip(gloss: Option<GlossMap>, load: ClipLoader, tk: string): Option<seq<Frame>> {
    var file := ResolveFile(gloss, tk);
    if file.None? then None
    else
      var c := load(file.value);
      if c.Some? && c.value != [] then c else None
  }

  /** `n` copies of one frame. */
  function Repeat(f: Frame, n: nat): seq<Frame> {
    seq(n, _ => f)
  }

  /** The frames one token contributes (see `SegmentShape`). */
  function Segment(gloss: Option<GlossMap>, load: ClipLoader, hold: nat, tk: string): seq<Frame> {
    match UsableClip(gloss, load, tk)
    case None => []
    case Some(c) => c + Repeat(c[|c| - 1], hold)
  }

  /**
   * A token contributes nothing when its clip is missing or empty; otherwise the clip's
   * frames, in order, followed by exactly `hold` copies of its last frame.
   */
  lemma SegmentShape(gloss: Option<GlossMap>, load: ClipLoader, hold: nat, tk: string)
    ensures UsableClip(gloss, load, tk).None? ==> Segment(gloss, load, hold, tk) == []
    ensures UsableClip(gloss, load, tk).Some? ==>
      var c := UsableClip(gloss, load, tk).value;
      var seg := Segment(gloss, load, hold, tk);
      && |seg| == |c| + hold
      && seg[..|c|] == c
      && forall j :: |c| <= j < |seg| ==> seg[j] == c[|c| - 1]
  {
  }

  /** The sequence built for `tokens`: the segments of the tokens, in token order. */
  function Sequence(gloss: Option<GlossMap>, load: ClipLoader, hold: nat, tokens: seq<string>): seq<Frame>
    decreases |tokens|
  {
    if tokens == [] then []
    else Segment(gloss, load, hold, tokens[0]) + Sequence(gloss, load, hold, tokens[1..])
  }

  /** What a token adds to the length: `|clip| + hold` for a usable clip, 0 for a skipped one. */
  function SegmentLength(gloss: Option<GlossMap>, load: ClipLoader, hold: nat, tk: string): nat {
    var file := ResolveFile(gloss, tk);
    var c := if file.None? then None else load(file.value);
    if c.Some? && |c.value| > 0 then |c.value| + hold else 0
  }

  /** The sum of the segment lengths of `tokens`. */
  function TotalLength(gloss: Option<GlossMap>, load: ClipLoader, hold: nat, tokens: seq<string>): nat
    decreases |tokens|
  {
    if tokens == [] then 0
    else SegmentLength(gloss, load, hold, tokens[0]) + TotalLength(gloss, load, hold, tokens[1..])
  }

  lemma SeqConcatAssoc(x: seq<Frame>, y: seq<Frame>, z: seq<Frame>)
    ensures x + (y + z) == (x + y) + z
  {
  }

  /** Building distributes over concatenation of token lists. */
  lemma {:induction false} SequenceAppend(gloss: Option<GlossMap>, load: ClipLoader, hold: nat, a: seq<string>, b: seq<string>)
    ensures Sequence(gloss, load, hold, a + b) == Sequence(gloss, load, hold, a) + Sequence(gloss, load, hold, b)
    decreases |a|
  {
    if a == [] {
      assert a + b == b;
    } else {
      var ab := a + b;
      assert ab[0] == a[0] && ab[1..] == a[1..] + b;
      SequenceAppend(gloss, load, hold, a[1..], b);
      var s0 := Segment(gloss, load, hold, a[0]);
      var sa := Sequence(gloss, load, hold, a[1..]);
      var sb := Sequence(gloss, load, hold, b);
      assert Sequence(gloss, load, hold, ab) == s0 + Sequence(gloss, load, hold, a[1..] + b);
      assert Sequence(gloss, load, hold, a) == s0 + sa;
      SeqConcatAssoc(s0, sa, sb);
    }
  }

  /**
   * The built sequence is as long as the sum of `|clip| + hold` over the tokens whose clip
   * loads and is non-empty; skipped tokens add nothing.
   */
  lemma {:induction false} SequenceLength(gloss: Option<GlossMap>, load: ClipLoader, hold: nat, tokens: seq<string>)
    ensures |Sequence(gloss, load, hold, tokens)| == TotalLength(gloss, load, hold, tokens)
    decreases |tokens|
  {
    if tokens != [] {
      SegmentShape(gloss, load, hold, tokens[0]);
      SequenceLength(gloss, load, hold, tokens[1..]);
    }
  }

  /** Appending one token appends its segment. */
  lemma SequenceSnoc(gloss: Option<GlossMap>, load: ClipLoader, hold: nat, tokens: seq<string>, tk: string)
    ensures Sequence(gloss, load, hold, tokens + [tk]) == Sequence(gloss, load, hold, tokens) + Segment(gloss, load, hold, tk)
  {
    SequenceAppend(gloss, load, hold, tokens, [tk]);
    assert [tk][1..] == [];
  }

  /**
   * Token order: the segment of the `j`-th token sits between the sequence of the tokens
   * before it and that of the tokens after it.
   */
  lemma SequenceSegmentAt(gloss: Option<GlossMap>, load: ClipLoader, hold: nat, tokens: seq<string>, j: nat)
    requires j < |tokens|
    ensures Sequence(gloss, load, hold, tokens) ==
      Sequence(gloss, load, hold, tokens[..j]) + Segment(gloss, load, hold, tokens[j]) + Sequence(gloss, load, hold, tokens[j + 1..])
  {
    var pre, suf := tokens[..j], tokens[j..];
    assert tokens == pre + suf;
    SequenceAppend(gloss, load, hold, pre, suf);
    assert suf[0] == tokens[j] && suf[1..] == tokens[j + 1..];
    var s0 := Sequence(gloss, load, hold, pre);
    var s1 := Segment(gloss, load, hold, tokens[j]);
    var s2 := Sequence(gloss, load, hold, tokens[j + 1..]);
    assert Sequence(gloss, load, hold, suf) == s1 + s2;
    SeqConcatAssoc(s0, s1, s2);
  }

  /** A token whose clip is missing or empty can be dropped without changing the sequence. */
  lemma SkippedTokenIgnored(gloss: Option<GlossMap>, load: ClipLoader, hold: nat, a: seq<string>, tk: string, b: seq<string>)
    requires UsableClip(gloss, load, tk).None?
    ensures Sequence(gloss, load, hold, a + [tk] + b) == Sequence(gloss, load, hold, a + b)
  {
    SequenceAppend(gloss, load, hold, a + [tk], b);
    SequenceSnoc(gloss, load, hold, a, tk);
    SequenceAppend(gloss, load, hold, a, b);
  }

  /**
   * With clips read from CSV files, a token that resolves to a file is skipped exactly when
   * that file is missing or holds nothing but blank and `#` comment lines.
   */
  lemma SkippedIffNoDataLines(gloss: Option<GlossMap>, files: string -> Option<seq<string>>,
                              parse: string -> real, hold: nat, tk: string)
    ensures ResolveFile(gloss, tk).Some? ==>
      var file := files(ResolveFile(gloss, tk).value);
      Segment(gloss, f => DecodeCsv(files(f), parse), hold, tk) == [] <==> file.None? || DataLines(file.value) == []
  {
    var load: ClipLoader := f => DecodeCsv(files(f), parse);
    SegmentShape(gloss, load, hold, tk);
  }
}
