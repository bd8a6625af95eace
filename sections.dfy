/**
 * The four answer sections of the health-care chatbot and the detection of
 * which of them a user message asks for (`SECTION_ORDER` and
 * `detect_requested_sections` in app.py).
 */
module Sections {
  import opened Text

  /** The canonical order in which sections are emitted. */
  const SECTION_ORDER: seq<string> := ["Definition", "Symptoms", "Prevention", "Medical Suggestions"]

  /** The keyword table, in the insertion order of the source's dictionary:
      a lower-case keyword and the section it asks for. */
  const KEYWORDS: seq<(string, string)> := [
    ("definition", "Definition"),
    ("symptom", "Symptoms"),
    ("prevention", "Prevention"),
    ("medical suggestion", "Medical Suggestions"),
    ("suggestion", "Medical Suggestions")
  ]

  predicate NoDuplicates(s: seq<string>) {
    forall i, j :: 0 <= i < j < |s| ==> s[i] != s[j]
  }

  /** The canonical titles are distinct. */
  lemma SectionOrderDistinct()
    ensures NoDuplicates(SECTION_ORDER)
  {
    assert SECTION_ORDER[0][0] == 'D' && SECTION_ORDER[1][0] == 'S' && SECTION_ORDER[2][0] == 'P' && SECTION_ORDER[3][0] == 'M';
  }

  /** `a` is `b` with some elements left out, the rest in the same order. */
  predicate IsSubsequence(a: seq<string>, b: seq<string>)
    decreases |b|
  {
    if a == [] then true
    else if b == [] then false
    else (a[0] == b[0] && IsSubsequence(a[1..], b[1..])) || IsSubsequence(a, b[1..])
  }

  /** The list comprehension `[s for s in order if s in keep]`. */
  function Restrict(order: seq<string>, keep: set<string>): (r: seq<string>)
    ensures forall x :: x in r <==> x in order && x in keep
    ensures IsSubsequence(r, order)
    ensures NoDuplicates(order) ==> NoDuplicates(r)
  {
    if order == [] then []
    else
      var rest := Restrict(order[1..], keep);
      if order[0] in keep then
        assert ([order[0]] + rest)[1..] == rest;
        [order[0]] + rest
      else
        assert rest != [] ==> rest[0] in keep;
        rest
  }

  /** The sections that the keywords in `keywords` occurring in `lowered` ask for. */
  function MentionedBy(lowered: string, keywords: seq<(string, string)>): set<string> {
    set k | k in keywords && Contains(lowered, k.0) :: k.1
  }

  /** What `detect_requested_sections(message)` returns: every section one of
      whose keywords occurs in the lower-cased message, once, in canonical order. */
  function RequestedSections(message: string): (r: seq<string>)
    ensures NoDuplicates(r)
    ensures IsSubsequence(r, SECTION_ORDER)
    ensures forall t :: t in r <==> t in SECTION_ORDER && Asks(LowerStr(message), t)
  {
    var mentioned := MentionedBy(LowerStr(message), KEYWORDS);
    assert forall t :: t in mentioned <==> Asks(LowerStr(message), t) by {
      forall t ensures t in mentioned <==> Asks(LowerStr(message), t) {
        if t in mentioned {
          var k :| k in KEYWORDS && k.1 == t && Contains(LowerStr(message), k.0);
          var i :| 0 <= i < |KEYWORDS| && KEYWORDS[i] == k;
        }
        if Asks(LowerStr(message), t) {
          var i :| 0 <= i < |KEYWORDS| && KEYWORDS[i].1 == t && Contains(LowerStr(message), KEYWORDS[i].0);
          assert KEYWORDS[i] in KEYWORDS;
        }
      }
    }
    Restrict(SECTION_ORDER, mentioned)
  }

  /** Some entry of the keyword table names section `t` and has its keyword in `lowered`. */
  predicate Asks(lowered: string, t: string) {
    exists i :: 0 <= i < |KEYWORDS| && KEYWORDS[i].1 == t && Contains(lowered, KEYWORDS[i].0)
  }

  /** Keeping nothing that occurs in `order` leaves nothing. */
  lemma {:induction false} RestrictNone(order: seq<string>, keep: set<string>)
    requires forall y :: y in order ==> y !in keep
    ensures Restrict(order, keep) == []
  {
    if order != [] {
      RestrictNone(order[1..], keep);
    }
  }

  /** Adding to `keep` an element `x` of `order` after which nothing in
      `order` is kept appends `x` to the restriction. */
  lemma {:induction false} RestrictExtend(order: seq<string>, keep: set<string>, x: string)
    requires NoDuplicates(order)
    requires x in order && x !in keep
    requires forall p, q :: 0 <= p < q < |order| && order[p] == x ==> order[q] !in keep
    ensures Restrict(order, keep + {x}) == Restrict(order, keep) + [x]
  {
    var tail := order[1..];
    if order[0] == x {
      assert forall y :: y in tail ==> y !in keep && y != x;
      RestrictNone(tail, keep + {x});
      RestrictNone(tail, keep);
    } else {
      assert x in tail;
      forall p, q | 0 <= p < q < |tail| && tail[p] == x ensures tail[q] !in keep {
        assert order[p + 1] == x;
      }
      RestrictExtend(tail, keep, x);
    }
  }

  /** A keyword's section never comes before the section of an earlier keyword. */
  lemma KeywordsFollowOrder(i: nat, p: nat)
    requires i < |KEYWORDS| && p < |SECTION_ORDER| && SECTION_ORDER[p] == KEYWORDS[i].1
    ensures forall q, j :: p < q < |SECTION_ORDER| && 0 <= j < i ==> SECTION_ORDER[q] != KEYWORDS[j].1
  {
  }

  /** Scanning one more keyword adds its section exactly when the keyword occurs. */
  lemma MentionedByAppend(lowered: string, keywords: seq<(string, string)>, k: (string, string))
    ensures MentionedBy(lowered, keywords + [k])
      == MentionedBy(lowered, keywords) + (if Contains(lowered, k.0) then {k.1} else {})
  {
  }

  /** Every section mentioned through `keywords` is the section of one of them. */
  lemma MentionedByWithin(lowered: string, keywords: seq<(string, string)>)
    ensures forall t :: t in MentionedBy(lowered, keywords) ==> exists j :: 0 <= j < |keywords| && keywords[j].1 == t
  {
    forall t | t in MentionedBy(lowered, keywords) ensures exists j :: 0 <= j < |keywords| && keywords[j].1 == t {
      var k :| k in keywords && Contains(lowered, k.0) && k.1 == t;
      var j :| 0 <= j < |keywords| && keywords[j] == k;
    }
  }

  /** One turn of the detection loop keeps the result equal to the
      canonical-order restriction to the sections mentioned so far. */
  lemma DetectStep(lowered: string, i: nat, requested: seq<string>)
    requires i < |KEYWORDS|
    requires requested == Restrict(SECTION_ORDER, MentionedBy(lowered, KEYWORDS[..i]))
    ensures var (keyword, section) := KEYWORDS[i];
      Restrict(SECTION_ORDER, MentionedBy(lowered, KEYWORDS[..i + 1]))
      == if Contains(lowered, keyword) && section !in requested then requested + [section] else requested
  {
    var (keyword, section) := KEYWORDS[i];
    var before := MentionedBy(lowered, KEYWORDS[..i]);
    assert KEYWORDS[..i + 1] == KEYWORDS[..i] + [KEYWORDS[i]];
    MentionedByAppend(lowered, KEYWORDS[..i], KEYWORDS[i]);
    var after := MentionedBy(lowered, KEYWORDS[..i + 1]);
    if Contains(lowered, keyword) {
      assert after == before + {section};
      if section !in requested {
        var p := if i < 3 then i else 3;
        KeywordsFollowOrder(i, p);
        MentionedByWithin(lowered, KEYWORDS[..i]);
        SectionOrderDistinct();
        RestrictExtend(SECTION_ORDER, before, section);
      } else {
        assert before + {section} == before;
      }
    } else {
      assert after == before;
    }
  }

  /** `detect_requested_sections`: scans the keyword table once, appending a
      section the first time one of its keywords is found in the lower-cased message. */
  method DetectRequestedSections(message: string) returns (requested: seq<string>)
    ensures requested == RequestedSections(message)
  {
    var lowered := LowerStr(message);
    requested := [];
    assert MentionedBy(lowered, KEYWORDS[..0]) == {};
    RestrictNone(SECTION_ORDER, {});
    for i := 0 to |KEYWORDS|
      invariant requested == Restrict(SECTION_ORDER, MentionedBy(lowered, KEYWORDS[..i]))
    {
      var (keyword, section) := KEYWORDS[i];
      DetectStep(lowered, i, requested);
      if Contains(lowered, keyword) && section !in requested {
        requested := requested + [section];
      }
    }
    assert KEYWORDS[..|KEYWORDS|] == KEYWORDS;
  }

  /** The keyword "medical suggestion" is subsumed by "suggestion": any message
      containing the former contains the latter. */
  lemma MedicalSuggestionImpliesSuggestion(lowered: string)
    ensures Contains(lowered, "medical suggestion") ==> Contains(lowered, "suggestion")
  {
    if Contains(lowered, "medical suggestion") {
      ContainsTransitive(lowered, "medical suggestion", "suggestion", 8);
    }
  }

  /** For a section named by a single keyword-table entry, asking for it is
      containing that entry's keyword. */
  lemma AsksSingle(lowered: string, i: nat)
    requires i < |KEYWORDS|
    requires forall j :: 0 <= j < |KEYWORDS| && KEYWORDS[j].1 == KEYWORDS[i].1 ==> j == i
    ensures Asks(lowered, KEYWORDS[i].1) <==> Contains(lowered, KEYWORDS[i].0)
  {
  }

  /** Each section, keyword by keyword: a section is detected exactly when
      one of its keywords occurs in the lower-cased message, and "suggestion"
      alone is enough for "Medical Suggestions". */
  lemma DetectionByKeyword(message: string)
    ensures var lowered, r := LowerStr(message), RequestedSections(message);
      && ("Definition" in r <==> Contains(lowered, "definition"))
      && ("Symptoms" in r <==> Contains(lowered, "symptom"))
      && ("Prevention" in r <==> Contains(lowered, "prevention"))
      && ("Medical Suggestions" in r <==> Contains(lowered, "suggestion"))
  {
    var lowered := LowerStr(message);
    AsksSingle(lowered, 0);
    AsksSingle(lowered, 1);
    AsksSingle(lowered, 2);
    assert Asks(lowered, "Medical Suggestions") <==> Contains(lowered, "suggestion") by {
      MedicalSuggestionImpliesSuggestion(lowered);
      assert forall j :: 0 <= j < |KEYWORDS| && KEYWORDS[j].1 == "Medical Suggestions" ==> j == 3 || j == 4;
      assert KEYWORDS[3] == ("medical suggestion", "Medical Suggestions");
      assert KEYWORDS[4] == ("suggestion", "Medical Suggestions");
    }
  }

  /** Detection is case-insensitive: a message and its lower-cased form ask
      for the same sections. */
  lemma DetectionIgnoresCase(message: string)
    ensures RequestedSections(LowerStr(message)) == RequestedSections(message)
  {
    LowerStrIdempotent(message);
  }

  /** `a ⊑ b ⊑ c` implies `a ⊑ c`. */
  lemma {:induction false} SubsequenceTransitive(a: seq<string>, b: seq<string>, c: seq<string>)
    requires IsSubsequence(a, b) && IsSubsequence(b, c)
    ensures IsSubsequence(a, c)
    decreases |c|
  {
    if a == [] || b == [] {
    } else if IsSubsequence(b, c[1..]) {
      SubsequenceTransitive(a, b, c[1..]);
    } else if IsSubsequence(a, b[1..]) {
      SubsequenceTransitive(a, b[1..], c[1..]);
    } else {
      SubsequenceTransitive(a[1..], b[1..], c[1..]);
    }
  }

  /** Every sequence is a subsequence of itself. */
  lemma {:induction false} SubsequenceReflexive(a: seq<string>)
    ensures IsSubsequence(a, a)
  {
    if a != [] {
      SubsequenceReflexive(a[1..]);
    }
  }

  /** A subsequence of a sequence without duplicates has none either, and
      draws its elements from it. */
  lemma {:induction false} SubsequenceNoDuplicates(a: seq<string>, b: seq<string>)
    requires IsSubsequence(a, b) && NoDuplicates(b)
    ensures NoDuplicates(a)
    ensures forall x :: x in a ==> x in b
    decreases |b|
  {
    if a != [] {
      if IsSubsequence(a, b[1..]) {
        SubsequenceNoDuplicates(a, b[1..]);
      } else {
        SubsequenceNoDuplicates(a[1..], b[1..]);
        assert b[0] !in b[1..];
        assert a == [a[0]] + a[1..] && b == [b[0]] + b[1..];
      }
    }
  }
}
