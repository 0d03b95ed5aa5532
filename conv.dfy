/**
 * The key-sequence to Zhuyin preview converter of src-tauri/src/conv.rs.
 *
 * The layout table is a parameter: the embedded JSON resource is not part of
 * this model, and its parse-failure fallback is the empty map.
 *
 * Every specification function below is defined by recursion on the LAST
 * element of its sequence, so that it describes exactly the state a
 * left-to-right loop has reached after a prefix.
 */
module Conv {
  import opened Wrappers

  /** A keyboard layout: key string (one lower-case character) to phonetic symbol. */
  type Layout = map<string, string>

  /** The layout used when the embedded resource cannot be parsed. */
  const FallbackLayout: Layout := map[]

  /** The five tone marks that close a syllable. */
  const Tones: seq<string> := ["˙", "ˊ", "ˇ", "ˋ", "ˮ"]

  predicate IsTone(s: string) {
    s in Tones
  }

  // ---------------------------------------------------------------------------
  // Key lookup
  // ---------------------------------------------------------------------------

  /** `char::to_ascii_lowercase`: only 'A'..'Z' change. */
  function AsciiLower(c: char): char {
    if 'A' <= c <= 'Z' then (c as int + 32) as char else c
  }

  /** The lookup key of one input character. */
  function Key(c: char): string {
    [AsciiLower(c)]
  }

  /** What one input character contributes: its symbol, or nothing when unmapped. */
  function Lookup(layout: Layout, c: char): seq<string> {
    if Key(c) in layout then [layout[Key(c)]] else []
  }

  /** Every character of `raw` lowered with `AsciiLower`. */
  function LowerString(raw: string): (r: string)
    ensures |r| == |raw|
    ensures forall i :: 0 <= i < |raw| ==> r[i] == AsciiLower(raw[i])
  {
    seq(|raw|, i requires 0 <= i < |raw| => AsciiLower(raw[i]))
  }

  // ---------------------------------------------------------------------------
  // to_bopomofo_symbols
  // ---------------------------------------------------------------------------

  /** The symbol sequence of `raw`: mapped characters in order, unmapped ones dropped. */
  function Symbols(layout: Layout, raw: string): (out: seq<string>)
    ensures |out| <= |raw|
    ensures forall i :: 0 <= i < |out| ==> out[i] in layout.Values
    decreases |raw|
  {
    if raw == [] then []
    else
      var n := |raw| - 1;
      var prev := Symbols(layout, raw[..n]);
      var last := Lookup(layout, raw[n]);
      assert forall i :: 0 <= i < |last| ==> last[i] in layout.Values;
      prev + last
  }

  /** The loop of `to_bopomofo_symbols`. */
  method ToBopomofoSymbols(layout: Layout, raw: string) returns (out: seq<string>)
    ensures out == Symbols(layout, raw)
  {
    out := [];
    var i := 0;
    while i < |raw|
      invariant 0 <= i <= |raw|
      invariant out == Symbols(layout, raw[..i])
    {
      var key := [AsciiLower(raw[i])];
      if key in layout {
        out := out + [layout[key]];
      }
      assert raw[..i + 1][..i] == raw[..i];
      i := i + 1;
    }
    assert raw[..|raw|] == raw;
  }

  /** Positions of the mapped characters of `raw`, in order. */
  function MappedIndices(layout: Layout, raw: string): (idx: seq<nat>)
    ensures |idx| == |Symbols(layout, raw)|
    ensures forall i :: 0 <= i < |idx| ==> idx[i] < |raw|
    decreases |raw|
  {
    if raw == [] then []
    else
      var n := |raw| - 1;
      MappedIndices(layout, raw[..n]) + (if Key(raw[n]) in layout then [n] else [])
  }

  /** Each produced symbol is the layout's value at the lowered character it comes from. */
  lemma {:induction false} SymbolsFromMappedChars(layout: Layout, raw: string, i: nat)
    requires i < |MappedIndices(layout, raw)|
    ensures var j := MappedIndices(layout, raw)[i];
            Key(raw[j]) in layout && Symbols(layout, raw)[i] == layout[Key(raw[j])]
    decreases |raw|
  {
    var n := |raw| - 1;
    var pre := raw[..n];
    var prev := MappedIndices(layout, pre);
    assert MappedIndices(layout, raw) == prev + (if Key(raw[n]) in layout then [n] else []);
    assert Symbols(layout, raw) == Symbols(layout, pre) + Lookup(layout, raw[n]);
    if i < |prev| {
      SymbolsFromMappedChars(layout, pre, i);
      assert pre[prev[i]] == raw[prev[i]];
    }
  }

  predicate StrictlyIncreasing(idx: seq<nat>) {
    forall i, k :: 0 <= i < k < |idx| ==> idx[i] < idx[k]
  }

  /** The source positions of the symbols are strictly increasing: input order is kept. */
  lemma {:induction false} MappedIndicesIncreasing(layout: Layout, raw: string)
    ensures StrictlyIncreasing(MappedIndices(layout, raw))
    decreases |raw|
  {
    if raw != [] {
      var n := |raw| - 1;
      var prev := MappedIndices(layout, raw[..n]);
      MappedIndicesIncreasing(layout, raw[..n]);
      var idx := MappedIndices(layout, raw);
      assert idx == prev + (if Key(raw[n]) in layout then [n] else []);
      forall i, k | 0 <= i < k < |idx| ensures idx[i] < idx[k] {
        assert idx[i] == prev[i] && prev[i] < n;
        if k < |prev| {
          assert idx[k] == prev[k];
        }
      }
    }
  }

  /** Every mapped character contributes: its position is among the mapped positions. */
  lemma {:induction false} MappedCharsKept(layout: Layout, raw: string, j: nat)
    requires j < |raw| && Key(raw[j]) in layout
    ensures j in MappedIndices(layout, raw)
    decreases |raw|
  {
    var n := |raw| - 1;
    if j < n {
      assert raw[..n][j] == raw[j];
      MappedCharsKept(layout, raw[..n], j);
    }
  }

  /** Symbols of a concatenation are the concatenation of the symbols: order is preserved. */
  lemma {:induction false} SymbolsAppend(layout: Layout, a: string, b: string)
    ensures Symbols(layout, a + b) == Symbols(layout, a) + Symbols(layout, b)
    decreases |b|
  {
    if b != [] {
      var n := |b| - 1;
      assert (a + b)[..|a + b| - 1] == a + b[..n];
      SymbolsAppend(layout, a, b[..n]);
    } else {
      assert a + b == a;
    }
  }

  /** No symbols at all exactly when no character of `raw` is mapped. */
  lemma {:induction false} SymbolsEmpty(layout: Layout, raw: string)
    ensures Symbols(layout, raw) == [] <==> forall j :: 0 <= j < |raw| ==> Key(raw[j]) !in layout
    decreases |raw|
  {
    if raw != [] {
      var n := |raw| - 1;
      SymbolsEmpty(layout, raw[..n]);
      assert forall j :: 0 <= j < n ==> raw[..n][j] == raw[j];
    }
  }

  /** Lowering is ASCII-only and idempotent, so lowering the input first changes nothing. */
  lemma {:induction false} SymbolsIgnoreAsciiCase(layout: Layout, raw: string)
    ensures Symbols(layout, LowerString(raw)) == Symbols(layout, raw)
    decreases |raw|
  {
    if raw != [] {
      var n := |raw| - 1;
      var low := LowerString(raw);
      assert low[..n] == LowerString(raw[..n]);
      assert AsciiLower(low[n]) == AsciiLower(raw[n]);
      SymbolsIgnoreAsciiCase(layout, raw[..n]);
    }
  }

  // ---------------------------------------------------------------------------
  // segment_syllables
  // ---------------------------------------------------------------------------

  /** Concatenation of a sequence of groups. */
  function Flatten(gs: seq<seq<string>>): seq<string> {
    if gs == [] then [] else Flatten(gs[..|gs| - 1]) + gs[|gs| - 1]
  }

  /** Number of tone marks in `s`. */
  function CountTones(s: seq<string>): nat {
    if s == [] then 0 else CountTones(s[..|s| - 1]) + (if IsTone(s[|s| - 1]) then 1 else 0)
  }

  predicate ToneFree(g: seq<string>) {
    forall k :: 0 <= k < |g| ==> !IsTone(g[k])
  }

  /** A syllable closed by a tone mark: non-empty, the mark at its end and nowhere before. */
  predicate Closed(g: seq<string>) {
    |g| > 0 && IsTone(g[|g| - 1]) && ToneFree(g[..|g| - 1])
  }

  /**
   * What `segment_syllables` holds after scanning `s`: the closed groups pushed
   * so far and the open buffer.
   */
  function Scan(s: seq<string>): (seq<seq<string>>, seq<string>)
    decreases |s|
  {
    if s == [] then ([], [])
    else
      var n := |s| - 1;
      var (res, buf) := Scan(s[..n]);
      if IsTone(s[n]) then (res + [buf + [s[n]]], []) else (res, buf + [s[n]])
  }

  // The loop invariant of `segment_syllables`, in three parts.

  /** After any prefix, the pushed groups and the buffer concatenate to the prefix. */
  lemma {:induction false} ScanLossless(s: seq<string>)
    ensures Flatten(Scan(s).0) + Scan(s).1 == s
    decreases |s|
  {
    if s != [] {
      var n := |s| - 1;
      ScanLossless(s[..n]);
      ScanSnoc(s[..n], s[n]);
      assert s[..n] + [s[n]] == s;
      if IsTone(s[n]) {
        FlattenSnoc(Scan(s[..n]).0, Scan(s[..n]).1 + [s[n]]);
      }
    }
  }

  /** Each pushed group is closed by its only tone mark, and the buffer holds none. */
  lemma {:induction false} ScanShape(s: seq<string>)
    ensures forall i :: 0 <= i < |Scan(s).0| ==> Closed(Scan(s).0[i])
    ensures ToneFree(Scan(s).1)
    decreases |s|
  {
    if s != [] {
      var n := |s| - 1;
      ScanShape(s[..n]);
      ScanSnoc(s[..n], s[n]);
      assert s[..n] + [s[n]] == s;
      var g := Scan(s[..n]).1 + [s[n]];
      assert g[..|g| - 1] == Scan(s[..n]).1;
    }
  }

  /** One group is pushed per tone mark, and the buffer is empty exactly after a tone mark. */
  lemma {:induction false} ScanCount(s: seq<string>)
    ensures |Scan(s).0| == CountTones(s)
    ensures Scan(s).1 == [] <==> s == [] || IsTone(s[|s| - 1])
    decreases |s|
  {
    if s != [] {
      var n := |s| - 1;
      ScanCount(s[..n]);
      ScanSnoc(s[..n], s[n]);
      assert s[..n] + [s[n]] == s;
    }
  }

  /** The syllables of `s` as groups of symbols. */
  function Groups(s: seq<string>): seq<seq<string>> {
    var (res, buf) := Scan(s);
    if buf == [] then res else res + [buf]
  }

  /** A sequence of symbol groups as `segment_syllables` must produce it. */
  predicate WellSegmented(gs: seq<seq<string>>) {
    (forall i :: 0 <= i < |gs| ==> |gs[i]| > 0 && ToneFree(gs[i][..|gs[i]| - 1])) &&
    (forall i :: 0 <= i < |gs| - 1 ==> IsTone(gs[i][|gs[i]| - 1]))
  }

  lemma FlattenSnoc(gs: seq<seq<string>>, g: seq<string>)
    ensures Flatten(gs + [g]) == Flatten(gs) + g
  {
    assert (gs + [g])[..|gs|] == gs;
  }

  /** Segmentation is lossless: the groups concatenate back to the symbols. */
  lemma GroupsLossless(s: seq<string>)
    ensures Flatten(Groups(s)) == s
  {
    ScanLossless(s);
    var (res, buf) := Scan(s);
    if buf != [] {
      FlattenSnoc(res, buf);
    }
  }

  /** One syllable per tone mark, plus one exactly when the last symbol is not a tone mark. */
  lemma GroupsCount(s: seq<string>)
    ensures |Groups(s)| == CountTones(s) + (if s != [] && !IsTone(s[|s| - 1]) then 1 else 0)
  {
    ScanCount(s);
  }

  /** Every syllable is non-empty, every one but the last ends at a tone, no tone before an end. */
  lemma GroupsWellSegmented(s: seq<string>)
    ensures WellSegmented(Groups(s))
  {
    ScanShape(s);
    var (res, buf) := Scan(s);
    var gs := Groups(s);
    forall i | 0 <= i < |gs|
      ensures |gs[i]| > 0 && ToneFree(gs[i][..|gs[i]| - 1])
    {
      if i == |res| {
        assert gs[i] == buf;
      } else {
        assert gs[i] == res[i] && Closed(res[i]);
      }
    }
  }

  /** Scanning a tone-free run from an empty buffer only fills the buffer. */
  lemma {:induction false} ScanToneFreeRun(p: seq<string>, g: seq<string>)
    requires Scan(p).1 == [] && ToneFree(g)
    ensures Scan(p + g) == (Scan(p).0, g)
    decreases |g|
  {
    if g == [] {
      assert p + g == p;
    } else {
      var n := |g| - 1;
      assert ToneFree(g[..n]) by {
        forall k | 0 <= k < n ensures !IsTone(g[..n][k]) {
          assert g[..n][k] == g[k];
        }
      }
      ScanToneFreeRun(p, g[..n]);
      ScanSnoc(p + g[..n], g[n]);
      assert (p + g[..n]) + [g[n]] == p + g;
      assert g[..n] + [g[n]] == g;
    }
  }

  /** Scanning one closed group from an empty buffer pushes that group. */
  lemma ScanClosedGroup(p: seq<string>, g: seq<string>)
    requires Scan(p).1 == [] && Closed(g)
    ensures Scan(p + g) == (Scan(p).0 + [g], [])
  {
    var m := |g| - 1;
    ScanToneFreeRun(p, g[..m]);
    ScanSnoc(p + g[..m], g[m]);
    assert (p + g[..m]) + [g[m]] == p + g;
    assert g[..m] + [g[m]] == g;
  }

  /** Scanning the concatenation of closed groups pushes exactly those groups. */
  lemma {:induction false} ScanOfClosed(gs: seq<seq<string>>)
    requires forall i :: 0 <= i < |gs| ==> Closed(gs[i])
    ensures Scan(Flatten(gs)) == (gs, [])
    decreases |gs|
  {
    if gs != [] {
      var n := |gs| - 1;
      var pre := gs[..n];
      assert pre + [gs[n]] == gs;
      ScanOfClosed(pre);
      FlattenSnoc(pre, gs[n]);
      ScanClosedGroup(Flatten(pre), gs[n]);
    }
  }

  /**
   * `Groups` is the only well-segmented split of `s`: any sequence of groups
   * that concatenates to `s`, whose groups are non-empty with no tone mark
   * before their end, and all but the last of which end in a tone mark, is it.
   */
  lemma GroupsUnique(gs: seq<seq<string>>, s: seq<string>)
    requires WellSegmented(gs) && Flatten(gs) == s
    ensures Groups(s) == gs
  {
    if gs != [] {
      var n := |gs| - 1;
      var pre := gs[..n];
      var g := gs[n];
      assert pre + [g] == gs;
      assert |g| > 0 && ToneFree(g[..|g| - 1]);
      forall i | 0 <= i < |pre| ensures Closed(pre[i]) {
        assert pre[i] == gs[i];
      }
      FlattenSnoc(pre, g);
      ScanOfClosed(pre);
      if IsTone(g[|g| - 1]) {
        ScanClosedGroup(Flatten(pre), g);
        assert Scan(s) == (gs, []);
      } else {
        assert ToneFree(g) by {
          forall k | 0 <= k < |g| ensures !IsTone(g[k]) {
            if k < |g| - 1 {
              assert g[..|g| - 1][k] == g[k];
            }
          }
        }
        ScanToneFreeRun(Flatten(pre), g);
        assert Scan(s) == (pre, g);
      }
    }
  }

  /** String concatenation of symbols (`buf.join("")`). */
  function Concat(g: seq<string>): string {
    if g == [] then "" else Concat(g[..|g| - 1]) + g[|g| - 1]
  }

  /** Each group joined into one syllable string. */
  function ConcatEach(gs: seq<seq<string>>): (r: seq<string>)
    ensures |r| == |gs|
  {
    if gs == [] then [] else ConcatEach(gs[..|gs| - 1]) + [Concat(gs[|gs| - 1])]
  }

  /** The syllable strings `segment_syllables` returns. */
  function Syllables(symbols: seq<string>): seq<string> {
    ConcatEach(Groups(symbols))
  }

  /** One step of the scan: push the symbol, and close the buffer at a tone mark. */
  lemma ScanSnoc(s: seq<string>, x: string)
    ensures Scan(s + [x]) ==
            if IsTone(x) then (Scan(s).0 + [Scan(s).1 + [x]], [])
            else (Scan(s).0, Scan(s).1 + [x])
  {
    assert (s + [x])[..|s|] == s;
  }

  lemma ConcatEachSnoc(gs: seq<seq<string>>, g: seq<string>)
    ensures ConcatEach(gs + [g]) == ConcatEach(gs) + [Concat(g)]
  {
    assert (gs + [g])[..|gs|] == gs;
  }

  /** The syllables are the closed groups, then the open buffer when it is non-empty. */
  lemma SyllablesOfScan(s: seq<string>)
    ensures Syllables(s) ==
            if Scan(s).1 == [] then ConcatEach(Scan(s).0)
            else ConcatEach(Scan(s).0) + [Concat(Scan(s).1)]
  {
    if Scan(s).1 != [] {
      ConcatEachSnoc(Scan(s).0, Scan(s).1);
    }
  }

  /** What one loop iteration of `segment_syllables` does to the pushed syllables and the buffer. */
  lemma SegmentStep(p: seq<string>, x: string)
    ensures IsTone(x) ==> ConcatEach(Scan(p + [x]).0) == ConcatEach(Scan(p).0) + [Concat(Scan(p).1 + [x])]
                          && Scan(p + [x]).1 == []
    ensures !IsTone(x) ==> ConcatEach(Scan(p + [x]).0) == ConcatEach(Scan(p).0)
                           && Scan(p + [x]).1 == Scan(p).1 + [x]
  {
    ScanSnoc(p, x);
    if IsTone(x) {
      ConcatEachSnoc(Scan(p).0, Scan(p).1 + [x]);
    }
  }

  /** The loop of `segment_syllables`. */
  method SegmentSyllables(symbols: seq<string>) returns (res: seq<string>)
    ensures res == Syllables(symbols)
  {
    res := [];
    var buf: seq<string> := [];
    var i := 0;
    while i < |symbols|
      invariant 0 <= i <= |symbols|
      invariant res == ConcatEach(Scan(symbols[..i]).0)
      invariant buf == Scan(symbols[..i]).1
    {
      var s := symbols[i];
      assert symbols[..i + 1] == symbols[..i] + [s];
      SegmentStep(symbols[..i], s);
      buf := buf + [s];
      if s in Tones {
        res := res + [Concat(buf)];
        buf := [];
      }
      i := i + 1;
    }
    assert symbols[..i] == symbols;
    ghost var st := Scan(symbols);
    assert res == ConcatEach(st.0) && buf == st.1;
    SyllablesOfScan(symbols);
    if buf != [] {
      res := res + [Concat(buf)];
    }
  }

  lemma {:induction false} ConcatAppend(a: seq<string>, b: seq<string>)
    ensures Concat(a + b) == Concat(a) + Concat(b)
    decreases |b|
  {
    if b == [] {
      assert a + b == a;
    } else {
      var n := |b| - 1;
      assert (a + b)[..|a + b| - 1] == a + b[..n];
      ConcatAppend(a, b[..n]);
    }
  }

  lemma {:induction false} ConcatFlatten(gs: seq<seq<string>>)
    ensures Concat(ConcatEach(gs)) == Concat(Flatten(gs))
    decreases |gs|
  {
    if gs != [] {
      var n := |gs| - 1;
      ConcatFlatten(gs[..n]);
      ConcatAppend(Flatten(gs[..n]), gs[n]);
      var r := ConcatEach(gs[..n]);
      assert (r + [Concat(gs[n])])[..n] == r;
    }
  }

  /** The syllable strings concatenate to the concatenation of all symbols. */
  lemma SyllablesLossless(symbols: seq<string>)
    ensures Concat(Syllables(symbols)) == Concat(symbols)
  {
    ConcatFlatten(Groups(symbols));
    GroupsLossless(symbols);
  }

  // ---------------------------------------------------------------------------
  // convert_raw_english_to_candidates
  // ---------------------------------------------------------------------------

  /** `xs.join(sep)`. */
  function JoinWith(xs: seq<string>, sep: string): string {
    if xs == [] then ""
    else if |xs| == 1 then xs[0]
    else JoinWith(xs[..|xs| - 1], sep) + sep + xs[|xs| - 1]
  }

  /** The bracketed preview of a syllable list. */
  function Preview(syllables: seq<string>): string {
    "〔" + JoinWith(syllables, " ") + "〕"
  }

  /** The candidate list for `raw`: none without symbols, otherwise the one preview. */
  function Candidates(layout: Layout, raw: string): seq<string> {
    var symbols := Symbols(layout, raw);
    if symbols == [] then [] else [Preview(Syllables(symbols))]
  }

  /** `convert_raw_english_to_candidates`: never fails. */
  method ConvertRawEnglishToCandidates(layout: Layout, raw: string)
    returns (r: Result<seq<string>, string>)
    ensures r == Ok(Candidates(layout, raw))
  {
    var symbols := ToBopomofoSymbols(layout, raw);
    if symbols == [] {
      return Ok([]);
    }
    var syllables := SegmentSyllables(symbols);
    r := Ok(["〔" + JoinWith(syllables, " ") + "〕"]);
  }

  /** No candidate exactly when no character of `raw` is mapped. */
  lemma CandidatesEmpty(layout: Layout, raw: string)
    ensures Candidates(layout, raw) == [] <==> forall j :: 0 <= j < |raw| ==> Key(raw[j]) !in layout
  {
    SymbolsEmpty(layout, raw);
  }

  /** The empty input and the fallback layout give no candidate. */
  lemma NoCandidatesForEmptyInputOrLayout(layout: Layout, raw: string)
    ensures Candidates(layout, []) == []
    ensures Candidates(FallbackLayout, raw) == []
  {
    SymbolsEmpty(FallbackLayout, raw);
  }

  /**
   * With at least one mapped character there is exactly one candidate: the
   * bracketed, space-separated syllables, one per tone mark plus a toneless tail.
   */
  lemma OneCandidate(layout: Layout, raw: string)
    requires exists j :: 0 <= j < |raw| && Key(raw[j]) in layout
    ensures var symbols := Symbols(layout, raw);
            var c := Candidates(layout, raw);
            |c| == 1 && c[0] == Preview(Syllables(symbols)) &&
            |Syllables(symbols)| == CountTones(symbols) + (if IsTone(symbols[|symbols| - 1]) then 0 else 1) &&
            Concat(Syllables(symbols)) == Concat(symbols)
  {
    var symbols := Symbols(layout, raw);
    SymbolsEmpty(layout, raw);
    GroupsCount(symbols);
    SyllablesLossless(symbols);
  }



  // ---------------------------------------------------------------------------
  // A worked example
  // ---------------------------------------------------------------------------

  /** A three-key layout: 'a' and 's' give an initial and a final, 'd' the fourth tone. */
  const SampleLayout: Layout := map["a" := "ㄇ", "s" := "ㄚ", "d" := "ˋ"]

  lemma ScanSampleToneless()
    ensures Scan(["ㄇ", "ㄚ"]) == ([], ["ㄇ", "ㄚ"])
  {
    assert !IsTone("ㄇ") && !IsTone("ㄚ");
    ScanSnoc([], "ㄇ");
    ScanSnoc(["ㄇ"], "ㄚ");
    assert [] + ["ㄇ"] == ["ㄇ"];
    assert ["ㄇ"] + ["ㄚ"] == ["ㄇ", "ㄚ"];
  }

  lemma ScanSampleToned()
    ensures Scan(["ㄇ", "ㄚ", "ˋ"]) == ([["ㄇ", "ㄚ", "ˋ"]], [])
  {
    ScanSampleToneless();
    assert IsTone("ˋ");
    ScanSnoc(["ㄇ", "ㄚ"], "ˋ");
    assert ["ㄇ", "ㄚ"] + ["ˋ"] == ["ㄇ", "ㄚ", "ˋ"];
    var none: seq<seq<string>> := [];
    assert none + [["ㄇ", "ㄚ", "ˋ"]] == [["ㄇ", "ㄚ", "ˋ"]];
  }

  lemma ConcatSample()
    ensures Concat(["ㄇ", "ㄚ"]) == "ㄇㄚ"
    ensures Concat(["ㄇ", "ㄚ", "ˋ"]) == "ㄇㄚˋ"
  {
    assert ["ㄇ", "ㄚ", "ˋ"][..2] == ["ㄇ", "ㄚ"];
    assert ["ㄇ", "ㄚ"][..1] == ["ㄇ"];
  }

  lemma SampleSymbols()
    ensures Symbols(SampleLayout, "asd") == ["ㄇ", "ㄚ", "ˋ"]
    ensures Symbols(SampleLayout, "AS") == ["ㄇ", "ㄚ"]
  {
  }

  lemma SampleSyllables()
    ensures Syllables(["ㄇ", "ㄚ", "ˋ"]) == ["ㄇㄚˋ"]
    ensures Syllables(["ㄇ", "ㄚ"]) == ["ㄇㄚ"]
  {
    ScanSampleToned();
    ScanSampleToneless();
    SyllablesOfScan(["ㄇ", "ㄚ", "ˋ"]);
    SyllablesOfScan(["ㄇ", "ㄚ"]);
    ConcatSample();
    var none: seq<seq<string>> := [];
    ConcatEachSnoc(none, ["ㄇ", "ㄚ", "ˋ"]);
    ConcatEachSnoc(none, ["ㄇ", "ㄚ"]);
    assert none + [["ㄇ", "ㄚ", "ˋ"]] == [["ㄇ", "ㄚ", "ˋ"]];
  }

  /** The candidate list from a known non-empty symbol sequence and its syllables. */
  lemma CandidatesFrom(layout: Layout, raw: string, symbols: seq<string>, syllables: seq<string>)
    requires Symbols(layout, raw) == symbols && symbols != [] && Syllables(symbols) == syllables
    ensures Candidates(layout, raw) == [Preview(syllables)]
  {
  }

  lemma PreviewSample()
    ensures Preview(["ㄇㄚˋ"]) == "〔ㄇㄚˋ〕"
    ensures Preview(["ㄇㄚ"]) == "〔ㄇㄚ〕"
  {
    assert JoinWith(["ㄇㄚˋ"], " ") == "ㄇㄚˋ";
    assert JoinWith(["ㄇㄚ"], " ") == "ㄇㄚ";
  }

  /** "asd" maps to ㄇ ㄚ ˋ: one syllable closed by the tone, one candidate. */
  lemma SampleToned()
    ensures Candidates(SampleLayout, "asd") == ["〔ㄇㄚˋ〕"]
  {
    SampleSymbols();
    SampleSyllables();
    CandidatesFrom(SampleLayout, "asd", ["ㄇ", "ㄚ", "ˋ"], ["ㄇㄚˋ"]);
    PreviewSample();
  }

  /** "AS" (upper case) maps to ㄇ ㄚ: the toneless tail is still one syllable. */
  lemma SampleToneless()
    ensures Candidates(SampleLayout, "AS") == ["〔ㄇㄚ〕"]
  {
    SampleSymbols();
    SampleSyllables();
    CandidatesFrom(SampleLayout, "AS", ["ㄇ", "ㄚ"], ["ㄇㄚ"]);
    PreviewSample();
  }
}
