/**
 * Normalisation of the language model's answer (`format_response` in
 * app.py): each titled section is pulled out of the raw text, empty ones are
 * dropped, the user's explicit request (if any) narrows the set, and the
 * survivors are re-emitted in canonical order as `**Title**` blocks.
 */
module Format {
  import opened Wrappers
  import opened Text
  import opened Sections

  /** A section that survives into the output: its title and its stripped body. */
  datatype Section = Section(title: string, body: string)

  /** `**Title**`, the header the extraction pattern looks for. */
  function Header(title: string): string {
    "**" + title + "**"
  }

  /** `a` and `b` are equal ignoring (ASCII) case, as under `re.IGNORECASE`. */
  predicate EqualsIgnoringCase(a: string, b: string) {
    |a| == |b| && (a == [] || (Lower(a[0]) == Lower(b[0]) && EqualsIgnoringCase(a[1..], b[1..])))
  }

  /** Case-insensitive equality is equality after lower-casing, character by character. */
  lemma {:induction false} EqualsIgnoringCaseIff(a: string, b: string)
    ensures EqualsIgnoringCase(a, b) <==> |a| == |b| && forall k :: 0 <= k < |a| ==> Lower(a[k]) == Lower(b[k])
  {
    if a != [] && b != [] {
      EqualsIgnoringCaseIff(a[1..], b[1..]);
      if |a| == |b| && forall k :: 0 <= k < |a| ==> Lower(a[k]) == Lower(b[k]) {
        assert forall k :: 0 <= k < |a| - 1 ==> Lower(a[1..][k]) == Lower(b[1..][k]) by {
          forall k | 0 <= k < |a| - 1 ensures Lower(a[1..][k]) == Lower(b[1..][k]) {
            assert a[1..][k] == a[k + 1] && b[1..][k] == b[k + 1];
          }
        }
      }
      if EqualsIgnoringCase(a, b) {
        forall k | 1 <= k < |a| ensures Lower(a[k]) == Lower(b[k]) {
          assert a[1..][k - 1] == a[k] && b[1..][k - 1] == b[k];
        }
      }
    }
  }

  /** `pat` matches `text` at `i` ignoring case. */
  predicate MatchesAt(text: string, pat: string, i: int) {
    0 <= i && i + |pat| <= |text| && EqualsIgnoringCase(text[i..i + |pat|], pat)
  }

  /** The leftmost position at or after `from` where `pat` matches ignoring case. */
  function FindFrom(text: string, pat: string, from: nat): (r: Option<nat>)
    decreases |text| - from
    ensures r.Some? ==> from <= r.value && r.value + |pat| <= |text|
  {
    if from + |pat| > |text| then None
    else if MatchesAt(text, pat, from) then Some(from)
    else FindFrom(text, pat, from + 1)
  }

  /** `FindFrom` finds a match, and no match lies between `from` and the
      one found (or anywhere from `from` on when it finds none). */
  lemma {:induction false} FindFromSpec(text: string, pat: string, from: nat)
    decreases |text| - from
    ensures var r := FindFrom(text, pat, from);
      && (r.Some? ==> MatchesAt(text, pat, r.value))
      && (forall i :: from <= i && (r.None? || i < r.value) ==> !MatchesAt(text, pat, i))
  {
    if from + |pat| <= |text| && !MatchesAt(text, pat, from) {
      FindFromSpec(text, pat, from + 1);
    }
  }

  /** The end of the run of whitespace starting at `i`: the greedy `\s*`. */
  function SkipSpace(text: string, i: nat): (j: nat)
    requires i <= |text|
    decreases |text| - i
    ensures i <= j <= |text|
  {
    if i < |text| && IsPySpace(text[i]) then SkipSpace(text, i + 1) else i
  }

  /** `SkipSpace` consumes only whitespace and stops at the first character
      that is not. */
  lemma {:induction false} SkipSpaceSpec(text: string, i: nat)
    requires i <= |text|
    decreases |text| - i
    ensures var j := SkipSpace(text, i);
      && (forall k :: i <= k < j ==> IsPySpace(text[k]))
      && (j == |text| || !IsPySpace(text[j]))
  {
    if i < |text| && IsPySpace(text[i]) {
      SkipSpaceSpec(text, i + 1);
    }
  }

  /** The lookahead `(?=\n\*\*|$)` succeeds at `p`: a newline followed by
      `**`, the end of the text, or (since `$` is used without MULTILINE) just
      before a newline that ends the text. */
  predicate StopsAt(text: string, p: nat) {
    p <= |text| && (StartsWith(text[p..], "\n**") || p == |text| || (p == |text| - 1 && text[p] == '\n'))
  }

  /** Where the lazy `(.*?)` begun at `i` ends: the first position at which the lookahead succeeds. */
  function LazyEnd(text: string, i: nat): (p: nat)
    requires i <= |text|
    decreases |text| - i
    ensures i <= p <= |text|
  {
    if StopsAt(text, i) then i else LazyEnd(text, i + 1)
  }

  /** `LazyEnd` stops where the lookahead succeeds, and it succeeds nowhere before. */
  lemma {:induction false} LazyEndSpec(text: string, i: nat)
    requires i <= |text|
    decreases |text| - i
    ensures var p := LazyEnd(text, i);
      && StopsAt(text, p)
      && (forall q :: i <= q < p ==> !StopsAt(text, q))
  {
    if !StopsAt(text, i) {
      LazyEndSpec(text, i + 1);
    }
  }

  /** Group 1 of `re.search(rf"\*\*{title}\*\*\s*(.*?)(?=\n\*\*|$)", text,
      flags=re.IGNORECASE | re.DOTALL)`, or `None` when there is no match.
      Once the header is found the match cannot fail, since the end of the
      text satisfies the lookahead, so the leftmost header decides. */
  function SectionMatch(text: string, title: string): Option<string>
  {
    match FindFrom(text, Header(title), 0)
    case None => None
    case Some(h) =>
      var start := SkipSpace(text, h + |Header(title)|);
      Some(text[start..LazyEnd(text, start)])
  }

  /** The search fails exactly when the header occurs nowhere; a captured
      group starts after all whitespace and never contains a `\n**`. */
  lemma SectionMatchShape(text: string, title: string)
    ensures var m := SectionMatch(text, title);
      && (m.None? <==> forall i :: !MatchesAt(text, Header(title), i))
      && (m.Some? ==> m.value == [] || !IsPySpace(m.value[0]))
      && (m.Some? ==> !Contains(m.value, "\n**"))
  {
    SectionMatchNoneIff(text, title);
    match FindFrom(text, Header(title), 0)
    case None =>
    case Some(h) =>
      SectionMatchAt(text, title, h);
      GroupShape(text, h + |Header(title)|);
  }

  /** The search fails exactly when the header occurs nowhere. */
  lemma SectionMatchNoneIff(text: string, title: string)
    ensures SectionMatch(text, title).None? <==> forall i :: !MatchesAt(text, Header(title), i)
  {
    FindFromSpec(text, Header(title), 0);
  }

  /** The group captured after position `at` starts after all whitespace and
      contains no `\n**`. */
  lemma GroupShape(text: string, at: nat)
    requires at <= |text|
    ensures var start := SkipSpace(text, at);
      var g := text[start..LazyEnd(text, start)];
      (g == [] || !IsPySpace(g[0])) && !Contains(g, "\n**")
  {
    var start := SkipSpace(text, at);
    SkipSpaceSpec(text, at);
    LazyEndSpec(text, start);
    NoHeaderBeforeStop(text, start, LazyEnd(text, start));
  }

  /** The lazy group never runs over a `\n**`. */
  lemma NoHeaderBeforeStop(text: string, start: nat, stop: nat)
    requires start <= stop <= |text|
    requires forall q :: start <= q < stop ==> !StopsAt(text, q)
    ensures !Contains(text[start..stop], "\n**")
  {
    var g := text[start..stop];
    forall i | 0 <= i <= |g| - 3 ensures !OccursAt(g, "\n**", i) {
      SliceOfSlice(text, start, stop, i, i + 3);
      SliceOfSlice(text, start + i, |text|, 0, 3);
      assert !StopsAt(text, start + i);
    }
  }

  /** The stripped group (the `.strip()` in `format_response`), or "" when the header does not occur. */
  function Content(text: string, title: string): (c: string)
  {
    match SectionMatch(text, title)
    case None => ""
    case Some(g) => PyStrip(g)
  }

  /** What the extraction guarantees about a section's content: it is ""
      when the header is missing, it has no whitespace at either end, and it
      never contains a newline followed by `**`, so it cannot run into a
      following section's header line. */
  lemma ContentShape(text: string, title: string)
    ensures (forall i :: !MatchesAt(text, Header(title), i)) ==> Content(text, title) == ""
    ensures Content(text, title) == [] || Stripped(Content(text, title))
    ensures !Contains(Content(text, title), "\n**")
  {
    var c := Content(text, title);
    assert (forall i :: !MatchesAt(text, Header(title), i)) ==> c == "" by {
      SectionMatchShape(text, title);
    }
    assert c == [] || Stripped(c) by {
      if SectionMatch(text, title).Some? {
        StripKeepsShape(SectionMatch(text, title).value);
      }
    }
    assert !Contains(c, "\n**") by {
      SectionMatchShape(text, title);
      if SectionMatch(text, title).Some? {
        StripKeepsShape(SectionMatch(text, title).value);
      }
    }
  }

  /** Stripping leaves no whitespace at either end and adds no `\n**`. */
  lemma StripKeepsShape(g: string)
    ensures PyStrip(g) == [] || Stripped(PyStrip(g))
    ensures Contains(PyStrip(g), "\n**") ==> Contains(g, "\n**")
  {
    TrimIsSlice(g, IsPySpace);
    TrimEnds(g, IsPySpace);
    var i, j :| 0 <= i <= j <= |g| && PyStrip(g) == g[i..j];
    if Contains(PyStrip(g), "\n**") {
      ContainsSlice(g, i, j, "\n**");
    }
  }

  /** Whatever a slice contains, the whole contains. */
  lemma ContainsSlice(s: string, i: nat, j: nat, k: string)
    requires i <= j <= |s|
    requires Contains(s[i..j], k)
    ensures Contains(s, k)
  {
    var m :| 0 <= m <= |s[i..j]| - |k| && OccursAt(s[i..j], k, m);
    SliceOfSlice(s, i, j, m, m + |k|);
    assert OccursAt(s, k, i + m);
  }

  /** The edge case the greedy `\s*` creates: when a header is immediately
      followed by a newline and the next `**Header**`, the whitespace run
      swallows that newline, and the captured content is the stripped text
      from the next header's `**` up to the following `\n**` or the end,
      not an empty section. */
  lemma EmptySectionCapturesNextHeader(text: string, title: string, h: nat)
    requires FindFrom(text, Header(title), 0) == Some(h)
    requires StartsWith(text[h + |Header(title)|..], "\n**")
    ensures var at := h + |Header(title)|;
      Content(text, title) == PyStrip(text[at + 1..LazyEnd(text, at + 1)])
    ensures |Content(text, title)| >= 2 && Content(text, title)[..2] == "**"
  {
    var at := h + |Header(title)|;
    assert text[at..at + 3] == "\n**" by {
      assert text[at..][..3] == text[at..at + 3];
    }
    ContentAt(text, title, h);
    CaptureAfterNewline(text, at);
  }

  /** After a position holding `\n**`, the whitespace run is that newline
      alone, and the stripped group starts with the `**` of the next header. */
  lemma CaptureAfterNewline(text: string, at: nat)
    requires at + 3 <= |text| && text[at..at + 3] == "\n**"
    ensures SkipSpace(text, at) == at + 1
    ensures var c := PyStrip(text[at + 1..LazyEnd(text, at + 1)]);
      |c| >= 2 && c[..2] == "**"
  {
    GroupAfterNewlineHeader(text, at);
    var g := text[at + 1..LazyEnd(text, at + 1)];
    assert g[0] == '*' && g[1] == '*';
    StripKeepsLeadingStars(g);
  }

  /** When the leftmost header is at `h`, the content is the stripped lazy
      group that starts after the whitespace following it. */
  lemma ContentAt(text: string, title: string, h: nat)
    requires FindFrom(text, Header(title), 0) == Some(h)
    ensures var start := SkipSpace(text, h + |Header(title)|);
      Content(text, title) == PyStrip(text[start..LazyEnd(text, start)])
  {
    var start := SkipSpace(text, h + |Header(title)|);
    SectionMatchAt(text, title, h);
    ContentOfMatch(text, title, text[start..LazyEnd(text, start)]);
  }

  /** The match found at the leftmost header `h`. */
  lemma SectionMatchAt(text: string, title: string, h: nat)
    requires FindFrom(text, Header(title), 0) == Some(h)
    ensures var start := SkipSpace(text, h + |Header(title)|);
      SectionMatch(text, title) == Some(text[start..LazyEnd(text, start)])
  {
  }

  /** The content of a match is its stripped group. */
  lemma ContentOfMatch(text: string, title: string, g: string)
    requires SectionMatch(text, title) == Some(g)
    ensures Content(text, title) == PyStrip(g)
  {
  }

  /** After a header followed by `\n**`, the whitespace run is just that
      newline, and the lookahead fails on both `*`, so the lazy group starts
      at the first `*` and holds at least the two. */
  lemma GroupAfterNewlineHeader(text: string, at: nat)
    requires at + 3 <= |text| && text[at..at + 3] == "\n**"
    ensures SkipSpace(text, at) == at + 1
    ensures at + 3 <= LazyEnd(text, at + 1) && text[at + 1] == '*' && text[at + 2] == '*'
  {
    assert text[at] == text[at..at + 3][0];
    assert text[at + 1] == text[at..at + 3][1];
    assert text[at + 2] == text[at..at + 3][2];
    assert SkipSpace(text, at + 1) == at + 1;
    assert text[at + 1..][0] == text[at + 1];
    assert !StopsAt(text, at + 1);
    assert text[at + 2..][0] == text[at + 2];
    assert !StopsAt(text, at + 2);
  }

  /** Stripping a string that starts with `**` keeps the `**` in front. */
  lemma StripKeepsLeadingStars(g: string)
    requires |g| >= 2 && g[0] == '*' && g[1] == '*'
    ensures |PyStrip(g)| >= 2 && PyStrip(g)[..2] == "**"
  {
    assert TrimStart(g, IsPySpace) == g;
    TrimEndSpec(g, IsPySpace);
  }

  /** The `extracted` dictionary after visiting `titles` in order: each
      visited title whose content is non-empty, mapped to that content. */
  function ExtractedFrom(text: string, titles: seq<string>): map<string, string>
    decreases |titles|
  {
    if titles == [] then map[]
    else
      var m := ExtractedFrom(text, titles[..|titles| - 1]);
      var title := titles[|titles| - 1];
      var content := Content(text, title);
      if content != "" then m[title := content] else m
  }

  /** The dictionary holds exactly the visited titles with non-empty
      content, each mapped to its content. */
  lemma {:induction false} ExtractedFromSpec(text: string, titles: seq<string>)
    ensures var m := ExtractedFrom(text, titles);
      && (forall t :: t in m <==> t in titles && Content(text, t) != "")
      && (forall t :: t in m ==> m[t] == Content(text, t))
  {
    if titles != [] {
      var init := titles[..|titles| - 1];
      ExtractedFromSpec(text, init);
      assert titles == init + [titles[|titles| - 1]];
    }
  }

  /** The `extracted` dictionary built from the whole `SECTION_ORDER`. */
  function Extracted(text: string): map<string, string> {
    ExtractedFrom(text, SECTION_ORDER)
  }

  /** The extraction loop of `format_response`: for each canonical title, record its content
      when that content is non-empty. */
  method ExtractSections(text: string) returns (extracted: map<string, string>)
    ensures extracted == Extracted(text)
  {
    extracted := map[];
    var i := 0;
    while i < |SECTION_ORDER|
      invariant 0 <= i <= |SECTION_ORDER|
      invariant extracted == ExtractedFrom(text, SECTION_ORDER[..i])
    {
      var title := SECTION_ORDER[i];
      var content := Content(text, title);
      assert SECTION_ORDER[..i + 1][..i] == SECTION_ORDER[..i];
      if content != "" {
        extracted := extracted[title := content];
      }
      i := i + 1;
    }
    assert SECTION_ORDER[..|SECTION_ORDER|] == SECTION_ORDER;
  }

  /** The titles `format_response` considers, in canonical order. */
  function Selected(requested: seq<string>): seq<string> {
    if requested != [] then Restrict(SECTION_ORDER, set s | s in requested) else SECTION_ORDER
  }

  /** The titles of a list of sections. */
  function Titles(secs: seq<Section>): (ts: seq<string>)
    ensures |ts| == |secs| && forall i :: 0 <= i < |secs| ==> ts[i] == secs[i].title
  {
    if secs == [] then [] else [secs[0].title] + Titles(secs[1..])
  }

  /** The list comprehension in `format_response`: the titles of `titles` that
      have an entry in `extracted`, in the order of `titles`, each with its
      entry stripped once more. */
  function EmittedFrom(extracted: map<string, string>, titles: seq<string>): (r: seq<Section>)
    ensures forall i :: 0 <= i < |r| ==> r[i].title in extracted && r[i].body == PyStrip(extracted[r[i].title])
    ensures forall t :: t in Titles(r) <==> t in titles && t in extracted
    ensures IsSubsequence(Titles(r), titles)
  {
    if titles == [] then []
    else
      var rest := EmittedFrom(extracted, titles[1..]);
      if titles[0] in extracted then
        var r := [Section(titles[0], PyStrip(extracted[titles[0]]))] + rest;
        assert Titles(r)[1..] == Titles(rest);
        r
      else
        rest
  }

  /** The sections `format_response(text, requested)` emits, in emission order. */
  function Emitted(text: string, requested: seq<string>): seq<Section> {
    EmittedFrom(Extracted(text), Selected(requested))
  }

  /** What gets emitted: exactly the canonical sections with non-empty
      content that were requested (every one when nothing was requested;
      requested entries that are not section titles are ignored), each once,
      in `SECTION_ORDER` whatever order the request listed them in, each with
      its extracted content. */
  lemma {:induction false} EmittedSections(text: string, requested: seq<string>)
    ensures var e := Emitted(text, requested);
      && (forall t :: t in Titles(e) <==>
            t in SECTION_ORDER && Content(text, t) != "" && (requested == [] || t in requested))
      && IsSubsequence(Titles(e), SECTION_ORDER)
      && NoDuplicates(Titles(e))
      && (forall i :: 0 <= i < |e| ==> e[i].body == Content(text, e[i].title) != "")
  {
    EmittedMembers(text, requested);
    EmittedOrder(text, requested);
    EmittedContents(text, requested);
  }

  /** Each emitted body is the section's content, which is not empty. */
  lemma EmittedContents(text: string, requested: seq<string>)
    ensures var e := Emitted(text, requested);
      forall i :: 0 <= i < |e| ==> e[i].body == Content(text, e[i].title) != ""
  {
    ExtractedTrimmed(text);
    EmittedBodies(Extracted(text), Selected(requested));
  }

  /** Which titles are emitted: the canonical ones with non-empty content
      that were requested, or all such when the request is empty. */
  lemma EmittedMembers(text: string, requested: seq<string>)
    ensures forall t :: t in Titles(Emitted(text, requested)) <==>
      t in SECTION_ORDER && Content(text, t) != "" && (requested == [] || t in requested)
  {
    ExtractedTrimmed(text);
  }

  /** The emitted titles follow `SECTION_ORDER` and repeat nothing. */
  lemma EmittedOrder(text: string, requested: seq<string>)
    ensures IsSubsequence(Titles(Emitted(text, requested)), SECTION_ORDER)
    ensures NoDuplicates(Titles(Emitted(text, requested)))
  {
    var ts := Titles(Emitted(text, requested));
    SectionOrderDistinct();
    SubsequenceReflexive(SECTION_ORDER);
    SubsequenceTransitive(ts, Selected(requested), SECTION_ORDER);
    SubsequenceNoDuplicates(ts, SECTION_ORDER);
  }

  /** Only the set of requested titles matters, not their order or repetition. */
  lemma EmittedIgnoresRequestOrder(text: string, r1: seq<string>, r2: seq<string>)
    requires forall s :: s in r1 <==> s in r2
    ensures Emitted(text, r1) == Emitted(text, r2)
  {
    assert (set s | s in r1) == (set s | s in r2);
    assert r1 == [] <==> r2 == [] by {
      assert r1 != [] ==> r1[0] in r2;
      assert r2 != [] ==> r2[0] in r1;
    }
  }

  /** The block emitted for one section (the f-string in `format_response`). */
  function Block(s: Section): string {
    "**" + s.title + "**\n" + s.body + "\n"
  }

  /** The blocks of a list of sections. */
  function Blocks(secs: seq<Section>): (bs: seq<string>)
    ensures |bs| == |secs|
  {
    if secs == [] then [] else [Block(secs[0])] + Blocks(secs[1..])
  }

  /** `sep.join(parts)`. */
  function Join(sep: string, parts: seq<string>): string {
    if parts == [] then ""
    else if |parts| == 1 then parts[0]
    else parts[0] + sep + Join(sep, parts[1..])
  }

  /** The intended layout: the sections' blocks separated by a blank line. */
  function Render(secs: seq<Section>): string {
    Join("\n", Blocks(secs))
  }

  /** Every section has a non-empty body with no whitespace at either end. */
  predicate Trimmed(secs: seq<Section>) {
    forall i :: 0 <= i < |secs| ==> Stripped(secs[i].body)
  }

  /** The shape of the output: nothing for no sections; otherwise it starts
      with `**` and ends with a single newline preceded by a non-space
      character (the last character of the last body). */
  lemma {:induction false} RenderShape(secs: seq<Section>)
    requires Trimmed(secs)
    ensures Render(secs) == "" <==> secs == []
    ensures secs != [] ==> var r := Render(secs);
      && |r| >= 6 && r[..2] == "**" && r[|r| - 1] == '\n' && !IsPySpace(r[|r| - 2])
  {
    if secs != [] {
      var r := Render(secs);
      var b := Block(secs[0]);
      if |secs| == 1 {
        assert r == b;
        BlockShape(secs[0]);
      } else {
        var rest := Render(secs[1..]);
        assert r == b + "\n" + rest by {
          assert Blocks(secs)[1..] == Blocks(secs[1..]);
        }
        assert r[..2] == "**" by {
          BlockShape(secs[0]);
          assert r[..2] == b[..2];
        }
        assert |r| >= 6 && r[|r| - 1] == '\n' && !IsPySpace(r[|r| - 2]) by {
          assert Trimmed(secs[1..]) by {
            forall i | 0 <= i < |secs| - 1 ensures Stripped(secs[1..][i].body) {
              assert secs[1..][i] == secs[i + 1];
            }
          }
          RenderShape(secs[1..]);
          assert r[|r| - 1] == rest[|rest| - 1] && r[|r| - 2] == rest[|rest| - 2];
        }
      }
    }
  }

  /** One block starts with `**` and ends with a newline right after the
      last character of its body. */
  lemma BlockShape(s: Section)
    requires Stripped(s.body)
    ensures var b := Block(s);
      && |b| >= 6 && b[..2] == "**" && b[|b| - 1] == '\n' && !IsPySpace(b[|b| - 2])
  {
    var b := Block(s);
    assert b[..2] == "**";
    assert b[|b| - 2] == s.body[|s.body| - 1];
  }

  /** The final `.strip()` of `format_response`: stripping the joined blocks only removes the final newline,
      which the conditional `"\n"` puts back, so the output is exactly the
      rendered layout. */
  lemma StripRestoresLayout(secs: seq<Section>)
    requires Trimmed(secs)
    ensures PyStrip(Render(secs)) + (if secs != [] then "\n" else "") == Render(secs)
  {
    RenderShape(secs);
    var r := Render(secs);
    if secs != [] {
      TrimDropsFinalNewline(r);
    }
  }

  /** A string that starts with a non-space character and ends with one
      newline after a non-space character strips to itself minus that newline. */
  lemma TrimDropsFinalNewline(r: string)
    requires |r| >= 2 && !IsPySpace(r[0]) && r[|r| - 1] == '\n' && !IsPySpace(r[|r| - 2])
    ensures PyStrip(r) + "\n" == r
  {
    assert TrimStart(r, IsPySpace) == r;
    assert TrimEnd(r[..|r| - 1], IsPySpace) == r[..|r| - 1];
  }

  /** Every value of `m` is non-empty with no whitespace at either end. */
  predicate TrimmedValues(m: map<string, string>) {
    forall t :: t in m ==> Stripped(m[t])
  }

  /** The extracted contents are already stripped and non-empty. */
  lemma ExtractedTrimmed(text: string)
    ensures TrimmedValues(Extracted(text))
    ensures forall t :: t in Extracted(text) <==> t in SECTION_ORDER && Content(text, t) != ""
    ensures forall t :: t in Extracted(text) ==> Extracted(text)[t] == Content(text, t)
  {
    ExtractedFromSpec(text, SECTION_ORDER);
    forall t | t in Extracted(text) ensures Stripped(Extracted(text)[t]) {
      ContentShape(text, t);
    }
  }

  /** Emitted from stripped values, each section's body is its value
      unchanged: the second strip is a no-op. */
  lemma {:induction false} EmittedBodies(m: map<string, string>, titles: seq<string>)
    requires TrimmedValues(m)
    ensures var e := EmittedFrom(m, titles); forall i :: 0 <= i < |e| ==> e[i].body == m[e[i].title]
  {
    var e := EmittedFrom(m, titles);
    forall i | 0 <= i < |e| ensures e[i].body == m[e[i].title] {
      var t := e[i].title;
      assert Stripped(m[t]);
      TrimOfTrimmed(m[t], IsPySpace);
    }
  }

  /** Emitted from stripped values, the sections are `Trimmed`. */
  lemma {:induction false} EmittedTrimmed(m: map<string, string>, titles: seq<string>)
    requires TrimmedValues(m)
    ensures Trimmed(EmittedFrom(m, titles))
  {
    var e := EmittedFrom(m, titles);
    forall i | 0 <= i < |e| ensures Stripped(e[i].body) {
      TrimOfTrimmed(m[e[i].title], IsPySpace);
      assert e[i].body == m[e[i].title];
    }
  }

  /** `format_response(text, requested_sections)`: the emitted sections laid
      out as `**Title**` blocks separated by a blank line. */
  method FormatResponse(text: string, requested: seq<string>) returns (r: string)
    ensures r == Render(Emitted(text, requested))
  {
    var extracted := ExtractSections(text);
    var ordered := Selected(requested);
    var parts := Blocks(EmittedFrom(extracted, ordered));
    r := PyStrip(Join("\n", parts)) + (if parts != [] then "\n" else "");
    ExtractedTrimmed(text);
    EmittedTrimmed(extracted, ordered);
    StripRestoresLayout(EmittedFrom(extracted, ordered));
  }

  /** The output is "" exactly when no section is emitted; otherwise it
      starts with `**` and ends with exactly one newline. */
  lemma FormattedShape(text: string, requested: seq<string>)
    ensures var out, e := Render(Emitted(text, requested)), Emitted(text, requested);
      && (out == "" <==> e == [])
      && (e != [] ==> out[..2] == "**" && out[|out| - 1] == '\n' && !IsPySpace(out[|out| - 2]))
  {
    ExtractedTrimmed(text);
    EmittedTrimmed(Extracted(text), Selected(requested));
    RenderShape(Emitted(text, requested));
  }
}
