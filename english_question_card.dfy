/** The English question card: which options are marked as selected, which
    subject the explanation is requested for, and how the explanation text
    is cut into lines, section headers, keyword lines and highlighted
    segments. */
module EnglishQuestionCard {
  import opened Strings
  import PaperView

  // ---------------------------------------------------------------------
  // Selected options and the explanation subject

  /** `question.student_answer`: absent, a plain string, or an object whose
      `final` field may be missing. */
  datatype StudentAnswer = NoAnswer | Written(text: string) | Worked(final: Option<string>)

  /** `finalAnswer`: the answer itself when it is a string, its `final`
      field otherwise. */
  function FinalAnswer(answer: StudentAnswer): Option<string> {
    match answer
    case NoAnswer => None
    case Written(text) => Some(text)
    case Worked(final) => final
  }

  /** A JavaScript string value is truthy when it is present and non-empty. */
  predicate Truthy(s: Option<string>) {
    s.Some? && s.value != []
  }

  /** `checkedOptions`: the marked options when that list is non-empty,
      else the final answer alone when it is truthy, else nothing. */
  function CheckedOptions(marked: Option<seq<string>>, answer: StudentAnswer): (checked: seq<string>)
    ensures marked.Some? && marked.value != [] ==> checked == marked.value
    ensures !(marked.Some? && marked.value != []) && Truthy(FinalAnswer(answer))
            ==> checked == [FinalAnswer(answer).value]
    ensures !(marked.Some? && marked.value != []) && !Truthy(FinalAnswer(answer)) ==> checked == []
  {
    if marked.Some? && |marked.value| > 0 then marked.value
    else if Truthy(FinalAnswer(answer)) then [FinalAnswer(answer).value]
    else []
  }

  /** An option is drawn as selected when its key or its text is checked. */
  predicate IsSelected(key: string, text: string, checked: seq<string>) {
    key in checked || text in checked
  }

  /** Which options end up selected: a non-empty marked list decides alone;
      otherwise an option is selected exactly when its key or text equals a
      non-empty final answer. */
  lemma SelectedOptions(key: string, text: string, marked: Option<seq<string>>, answer: StudentAnswer)
    ensures IsSelected(key, text, CheckedOptions(marked, answer)) <==>
            if marked.Some? && marked.value != [] then key in marked.value || text in marked.value
            else Truthy(FinalAnswer(answer)) && (key == FinalAnswer(answer).value || text == FinalAnswer(answer).value)
  {
  }

  /** `apiSubject`: English exactly when the subject lower-cases to
      "english" or is "英语"; mathematics otherwise, also when absent. */
  function ApiSubject(subject: Option<string>): (api: string)
    ensures api == "english" || api == "math"
    ensures api == "english" <==> subject.Some? && (Lower(subject.value) == "english" || subject.value == "英语")
  {
    if subject.Some? && (Lower(subject.value) == "english" || subject.value == "英语") then "english"
    else "math"
  }

  /** The card asks for an English explanation exactly when the page labels
      the same subject value as English. */
  lemma ApiSubjectAgreesWithLabel(subject: string)
    ensures ApiSubject(Some(subject)) == "english" <==> PaperView.SubjectLabel(subject) == PaperView.EnglishLabel
  {
  }

  // ---------------------------------------------------------------------
  // Explanation lines and section headers

  predicate IsBlank(line: string) {
    Trim(line) == []
  }

  /** The pieces that are not blank, in their original order. */
  function NonBlank(pieces: seq<string>): seq<string>
    decreases |pieces|
  {
    if pieces == [] then []
    else (if IsBlank(pieces[0]) then [] else [pieces[0]]) + NonBlank(pieces[1..])
  }

  /** Filtering keeps every piece that is not blank and nothing else. */
  lemma {:induction false} NonBlankKeeps(pieces: seq<string>)
    ensures |NonBlank(pieces)| <= |pieces|
    ensures forall k :: 0 <= k < |NonBlank(pieces)| ==>
              NonBlank(pieces)[k] in pieces && !IsBlank(NonBlank(pieces)[k])
    ensures forall k :: 0 <= k < |pieces| && !IsBlank(pieces[k]) ==> pieces[k] in NonBlank(pieces)
    decreases |pieces|
  {
    if pieces != [] {
      var head := if IsBlank(pieces[0]) then [] else [pieces[0]];
      var tail := NonBlank(pieces[1..]);
      var lines := head + tail;
      assert NonBlank(pieces) == lines;
      NonBlankKeeps(pieces[1..]);
      forall k | 0 <= k < |lines|
        ensures lines[k] in pieces && !IsBlank(lines[k])
      {
        if k >= |head| {
          assert lines[k] == tail[k - |head|];
          assert tail[k - |head|] in pieces[1..];
        }
      }
      forall k | 0 <= k < |pieces| && !IsBlank(pieces[k])
        ensures pieces[k] in lines
      {
        if k > 0 {
          assert pieces[k] == pieces[1..][k - 1];
          assert pieces[k] in tail;
        }
      }
    }
  }

  /** Filtering distributes over concatenation, so the kept lines keep
      their relative order. */
  lemma {:induction false} NonBlankConcat(a: seq<string>, b: seq<string>)
    ensures NonBlank(a + b) == NonBlank(a) + NonBlank(b)
    decreases |a|
  {
    if a == [] {
      assert a + b == b;
    } else {
      var head := if IsBlank(a[0]) then [] else [a[0]];
      assert (a + b)[0] == a[0];
      assert (a + b)[1..] == a[1..] + b;
      assert NonBlank(a + b) == head + NonBlank(a[1..] + b);
      NonBlankConcat(a[1..], b);
      assert NonBlank(a) == head + NonBlank(a[1..]);
      AppendAssoc(head, NonBlank(a[1..]), NonBlank(b));
    }
  }

  /** `explainLines`: the lines of the explanation whose trim is not empty. */
  function ExplainLines(explain: string): seq<string> {
    NonBlank(Split(explain, '\n'))
  }

  /** The explanation lines are exactly the lines of the text that hold a
      character other than whitespace, and none of them holds a newline. */
  lemma ExplainLinesAreTextLines(explain: string)
    ensures forall k :: 0 <= k < |ExplainLines(explain)| ==>
              && ExplainLines(explain)[k] in Split(explain, '\n')
              && '\n' !in ExplainLines(explain)[k]
              && exists i :: 0 <= i < |ExplainLines(explain)[k]| && !IsSpace(ExplainLines(explain)[k][i])
    ensures forall line :: line in Split(explain, '\n') && !IsBlank(line) ==> line in ExplainLines(explain)
  {
    var pieces := Split(explain, '\n');
    var lines := ExplainLines(explain);
    assert lines == NonBlank(pieces);
    NonBlankKeeps(pieces);
    SplitPiecesLackSeparator(explain, '\n');
    forall k | 0 <= k < |lines|
      ensures lines[k] in pieces && '\n' !in lines[k]
      ensures exists i :: 0 <= i < |lines[k]| && !IsSpace(lines[k][i])
    {
      var j :| 0 <= j < |pieces| && pieces[j] == lines[k];
      assert '\n' !in pieces[j];
      TrimEmptyIffAllSpace(lines[k]);
      assert !AllSpace(lines[k]);
    }
  }

  const SectionTitles: seq<string> := ["正确答案", "逐句翻译", "关键词汇", "讲解说明", "错误分析"]
  const KeywordSection: string := "关键词汇"

  /** No two stars stand next to each other. */
  predicate NoDoubleStar(s: string) {
    forall i :: 0 <= i < |s| ==> !StarPairAt(s, i)
  }

  /** Stars at `i` and `i + 1`. */
  predicate StarPairAt(s: string, i: nat) {
    i + 1 < |s| && s[i] == '*' && s[i + 1] == '*'
  }

  // `s.replace(/\*\*/g, '')`: every non-overlapping pair of stars, taken
  // left to right, is removed.
  function StripBold(s: string): (r: string)
    ensures NoDoubleStar(r)
    ensures s == [] ==> r == []
    ensures s != [] && s[0] != '*' ==> r != [] && r[0] == s[0]
    decreases |s|
  {
    if |s| >= 2 && s[0] == '*' && s[1] == '*' then StripBold(s[2..])
    else if s == [] then []
    else
      var tail := StripBold(s[1..]);
      var r := [s[0]] + tail;
      assert forall i :: 1 <= i < |r| ==> !StarPairAt(r, i) by {
        forall i | 1 <= i < |r| ensures !StarPairAt(r, i) {
          assert !StarPairAt(tail, i - 1);
        }
      }
      assert !StarPairAt(r, 0);
      r
  }

  /** Stripping removes stars and nothing else. */
  lemma {:induction false} StripBoldRemovesOnlyStars(s: string)
    ensures Without(StripBold(s), '*') == Without(s, '*')
    decreases |s|
  {
    if |s| >= 2 && s[0] == '*' && s[1] == '*' {
      StripBoldRemovesOnlyStars(s[2..]);
      assert s[1..][1..] == s[2..];
      assert Without(s, '*') == Without(s[1..], '*');
    } else if s != [] {
      StripBoldRemovesOnlyStars(s[1..]);
      var r := [s[0]] + StripBold(s[1..]);
      assert r[0] == s[0] && r[1..] == StripBold(s[1..]);
    }
  }

  /** A maximal run of n stars: the pairs go, and one star is left when n
      is odd. The text after the run is stripped on its own. */
  lemma {:induction false} StarRun(n: nat, t: string)
    requires t == [] || t[0] != '*'
    ensures StripBold(Repeat('*', n) + t) == Repeat('*', n % 2) + StripBold(t)
    decreases n
  {
    if n == 0 {
      assert Repeat('*', n) + t == t;
    } else if n == 1 {
      assert Repeat('*', n) + t == "*" + t;
      StripBoldOther('*', t);
    } else {
      RepeatTwoMore('*', n - 2, t);
      StripBoldPair(Repeat('*', n - 2) + t);
      StarRun(n - 2, t);
      ParityStep(n);
    }
  }

  lemma ParityStep(n: nat)
    requires n >= 2
    ensures n % 2 == (n - 2) % 2
  {
  }

  /** A leading `**` is dropped. */
  lemma StripBoldPair(rest: string)
    ensures StripBold("**" + rest) == StripBold(rest)
  {
    assert ("**" + rest)[2..] == rest;
  }

  /** A character other than a star is kept, and so is a star that is
      not followed by another. */
  lemma StripBoldOther(c: char, t: string)
    requires c != '*' || t == [] || t[0] != '*'
    ensures StripBold([c] + t) == [c] + StripBold(t)
  {
    assert ([c] + t)[1..] == t;
  }

  /** The text a header test looks at: the line without `**`, trimmed. */
  function HeaderText(line: string): string {
    Trim(StripBold(line))
  }

  /** `h` starts with the title followed by a full-width colon. */
  predicate OpensSection(h: string, title: string) {
    StartsWith(h, title + "：")
  }

  /** `sectionTitles.find(...)`: the first title that opens `h`. */
  function FindTitle(h: string, titles: seq<string>): (hit: Option<string>)
    ensures hit.Some? ==> hit.value in titles && OpensSection(h, hit.value)
    ensures hit.None? <==> forall k :: 0 <= k < |titles| ==> !OpensSection(h, titles[k])
    decreases |titles|
  {
    if titles == [] then None
    else if OpensSection(h, titles[0]) then Some(titles[0])
    else FindTitle(h, titles[1..])
  }

  /** `getSectionName`. */
  function SectionName(line: string): (name: Option<string>)
    ensures name.Some? ==> name.value in SectionTitles && OpensSection(HeaderText(line), name.value)
  {
    FindTitle(HeaderText(line), SectionTitles)
  }

  /** `isSectionTitle`. */
  predicate IsSectionTitle(line: string) {
    exists k :: 0 <= k < |SectionTitles| && OpensSection(HeaderText(line), SectionTitles[k])
  }

  /** A line is a header exactly when `getSectionName` names a section, and
      the name is the title the line opens with. */
  lemma SectionNameOfHeader(line: string, title: string)
    ensures IsSectionTitle(line) <==> SectionName(line).Some?
    ensures title in SectionTitles && OpensSection(HeaderText(line), title)
            ==> SectionName(line) == Some(title)
  {
    var h := HeaderText(line);
    if title in SectionTitles && OpensSection(h, title) {
      var name := SectionName(line).value;
      assert |name| == 4 && |title| == 4;
      assert h[..5] == title + "：" && h[..5] == name + "：";
      assert title == (title + "：")[..4] && name == (name + "：")[..4];
    }
  }

  /** `getSectionName` of every line, in order. */
  function SectionNames(lines: seq<string>): (names: seq<Option<string>>)
    ensures |names| == |lines|
    ensures forall k :: 0 <= k < |lines| ==> names[k] == SectionName(lines[k])
  {
    seq(|lines|, k requires 0 <= k < |lines| => SectionName(lines[k]))
  }

  /** The value `activeSection` holds after the first `k` lines of the
      fold: the latest name among `names[..k]`. */
  function LatestTitle(names: seq<Option<string>>, k: nat): Option<string>
    requires k <= |names|
    decreases k
  {
    if k == 0 then None
    else if names[k - 1].Some? then names[k - 1]
    else LatestTitle(names, k - 1)
  }

  /** The fold tracks the most recent header: nothing is active before the
      first name, and otherwise the active name is one with no name after
      it. */
  lemma {:induction false} LatestTitleIsLatest(names: seq<Option<string>>, k: nat)
    requires k <= |names|
    ensures LatestTitle(names, k).None? <==> forall j :: 0 <= j < k ==> names[j].None?
    ensures LatestTitle(names, k).Some? ==>
              exists j :: 0 <= j < k && names[j] == LatestTitle(names, k)
                          && forall m :: j < m < k ==> names[m].None?
    decreases k
  {
    if k > 0 && names[k - 1].None? {
      LatestTitleIsLatest(names, k - 1);
      if LatestTitle(names, k).Some? {
        var j :| 0 <= j < k - 1 && names[j] == LatestTitle(names, k - 1)
                 && forall m :: j < m < k - 1 ==> names[m].None?;
        assert forall m :: j < m < k ==> names[m].None?;
      }
    } else if k > 0 {
      assert names[k - 1] == LatestTitle(names, k);
    }
  }

  /** A name with no name after it up to `k` is the active one. */
  lemma {:induction false} LatestTitleOfLastName(names: seq<Option<string>>, j: nat, k: nat)
    requires j < k <= |names| && names[j].Some?
    requires forall m :: j < m < k ==> names[m].None?
    ensures LatestTitle(names, k) == names[j]
    decreases k
  {
    if k - 1 > j {
      LatestTitleOfLastName(names, j, k - 1);
    }
  }

  /** Every active name is one of the names. */
  lemma {:induction false} LatestTitleIsAName(names: seq<Option<string>>, k: nat)
    requires k <= |names|
    ensures LatestTitle(names, k).Some? ==> LatestTitle(names, k) in names[..k]
    decreases k
  {
    if k > 0 && names[k - 1].None? {
      LatestTitleIsAName(names, k - 1);
      assert names[..k - 1] <= names[..k];
    }
  }

  /** The section in force after the first `k` lines of the explanation. */
  function ActiveSection(lines: seq<string>, k: nat): (active: Option<string>)
    requires k <= |lines|
    ensures active.Some? ==> active.value in SectionTitles
  {
    var names := SectionNames(lines);
    LatestTitleIsAName(names, k);
    LatestTitle(names, k)
  }

  // ---------------------------------------------------------------------
  // Inline highlighting

  /** A piece of rendered text, highlighted or not. */
  datatype Segment = Plain(text: string) | Mark(text: string)

  function Texts(segs: seq<Segment>): (texts: seq<string>)
    ensures |texts| == |segs|
    ensures forall k :: 0 <= k < |segs| ==> texts[k] == segs[k].text
  {
    seq(|segs|, k requires 0 <= k < |segs| => segs[k].text)
  }

  /** All the text the segments show, in order. */
  function Shown(segs: seq<Segment>): string {
    Flatten(Texts(segs))
  }

  lemma ShownConcat(a: seq<Segment>, b: seq<Segment>)
    ensures Shown(a + b) == Shown(a) + Shown(b)
  {
    assert Texts(a + b) == Texts(a) + Texts(b);
    FlattenConcat(Texts(a), Texts(b));
  }

  /** The quote characters of `["“”‘’]`. */
  predicate IsQuote(c: char) {
    c == '"' || c == '“' || c == '”' || c == '‘' || c == '’'
  }

  /** `(["“”‘’])([^"“”‘’]+)(["“”‘’])` matches `part[i..j]`. */
  predicate QuotedAt(part: string, i: int, j: int) {
    && 0 <= i && i + 2 < j <= |part|
    && IsQuote(part[i]) && IsQuote(part[j - 1])
    && forall m :: i < m < j - 1 ==> !IsQuote(part[m])
  }

  /** Index of the first quote at or after `from`. */
  function NextQuote(part: string, from: nat): (q: Option<nat>)
    requires from <= |part|
    ensures q.None? ==> forall m :: from <= m < |part| ==> !IsQuote(part[m])
    ensures q.Some? ==> from <= q.value < |part| && IsQuote(part[q.value])
                        && forall m :: from <= m < q.value ==> !IsQuote(part[m])
    decreases |part| - from
  {
    if from == |part| then None
    else if IsQuote(part[from]) then Some(from)
    else NextQuote(part, from + 1)
  }

  /** `regex.exec(part)` with `lastIndex == from`: the leftmost match at or
      after `from`, as the pair of its start and end. */
  function FindQuoted(part: string, from: nat): (r: Option<(nat, nat)>)
    requires from <= |part|
    ensures r.Some? ==> from <= r.value.0 && r.value.0 + 2 < r.value.1 <= |part|
    decreases |part| - from
  {
    if from == |part| then None
    else if IsQuote(part[from]) then
      match NextQuote(part, from + 1)
      case Some(q) => if q > from + 1 then Some((from, q + 1)) else FindQuoted(part, from + 1)
      case None => FindQuoted(part, from + 1)
    else FindQuoted(part, from + 1)
  }

  /** What the search finds is a match. */
  lemma {:induction false} FindQuotedMatches(part: string, from: nat)
    requires from <= |part|
    ensures FindQuoted(part, from).Some? ==>
              QuotedAt(part, FindQuoted(part, from).value.0, FindQuoted(part, from).value.1)
    decreases |part| - from
  {
    if from < |part| && FindQuoted(part, from) == FindQuoted(part, from + 1) {
      FindQuotedMatches(part, from + 1);
    }
  }

  /** The search misses no match: every match at or after `from` is found,
      or one that starts earlier is. */
  lemma {:induction false} FindQuotedIsLeftmost(part: string, from: nat, i: nat, j: nat)
    requires from <= i && QuotedAt(part, i, j)
    ensures FindQuoted(part, from).Some? && FindQuoted(part, from).value.0 <= i
    decreases |part| - from
  {
    if from < i {
      if FindQuoted(part, from) != FindQuoted(part, from + 1) {
      } else {
        FindQuotedIsLeftmost(part, from + 1, i, j);
      }
    } else {
      var q := NextQuote(part, from + 1);
      assert q.Some? && q.value == j - 1;
    }
  }

  /** A highlighted word in a quote scan stands between the two quote
      characters it was matched with, and is non-empty and quote-free. */
  predicate Bracketed(segs: seq<Segment>) {
    forall k :: 0 <= k < |segs| && segs[k].Mark? ==>
      && 0 < k < |segs| - 1
      && QuoteSegment(segs[k - 1]) && QuoteSegment(segs[k + 1])
      && segs[k].text != []
      && forall m :: 0 <= m < |segs[k].text| ==> !IsQuote(segs[k].text[m])
  }

  predicate QuoteSegment(s: Segment) {
    s.Plain? && |s.text| == 1 && IsQuote(s.text[0])
  }

  /** The unmatched text `part[from..upto]`, as one plain segment when it
      is not empty. */
  function Gap(part: string, from: nat, upto: nat): (segs: seq<Segment>)
    requires from <= upto <= |part|
    ensures Shown(segs) == part[from..upto]
  {
    if upto > from then
      FlattenOne(part[from..upto]);
      assert Texts([Plain(part[from..upto])]) == [part[from..upto]];
      [Plain(part[from..upto])]
    else
      assert Texts([]) == [];
      []
  }

  /** The text after the last match, as one plain segment when it is not
      empty. */
  function Rest(part: string, from: nat): (segs: seq<Segment>)
    requires from <= |part|
    ensures Shown(segs) == part[from..]
  {
    if from < |part| then
      FlattenOne(part[from..]);
      assert Texts([Plain(part[from..])]) == [part[from..]];
      [Plain(part[from..])]
    else
      assert Texts([]) == [];
      []
  }

  /** One match `part[i..j]`: the opening quote, the highlighted word and
      the closing quote. */
  function Quoted(part: string, i: nat, j: nat): (segs: seq<Segment>)
    requires i + 2 < j <= |part|
    ensures Shown(segs) == part[i..j]
  {
    var segs := [Plain([part[i]]), Mark(part[i + 1..j - 1]), Plain([part[j - 1]])];
    assert Texts(segs) == [[part[i]], part[i + 1..j - 1], [part[j - 1]]];
    FlattenThree([part[i]], part[i + 1..j - 1], [part[j - 1]]);
    assert part[i..j] == [part[i]] + part[i + 1..j - 1] + [part[j - 1]];
    segs
  }

  /** The segments the exec loop emits for `part` from `lastIndex == from`
      on: the text before each match, the match itself, and finally the
      text after the last match. */
  function QuoteScan(part: string, from: nat): (segs: seq<Segment>)
    requires from <= |part|
    decreases |part| - from
  {
    var r := FindQuoted(part, from);
    if r.None? then Rest(part, from)
    else Gap(part, from, r.value.0) + Quoted(part, r.value.0, r.value.1) + QuoteScan(part, r.value.1)
  }

  /** The word inside a match the scan finds is highlighted. */
  lemma QuotedWordMarked(part: string, from: nat, i: nat, j: nat)
    requires from <= |part| && FindQuoted(part, from) == Some((i, j))
    ensures Mark(part[i + 1..j - 1]) in QuoteScan(part, from)
  {
    var quoted := Quoted(part, i, j);
    assert Mark(part[i + 1..j - 1]) == quoted[1];
    ScanStep(part, from);
    InMiddle(Gap(part, from, i), quoted, QuoteScan(part, j), 1);
  }

  /** The scan goes on after a match: everything the scan from the match's
      end emits is emitted too. */
  lemma ScanGoesOn(part: string, from: nat, i: nat, j: nat)
    requires from <= |part| && FindQuoted(part, from) == Some((i, j))
    ensures forall seg :: seg in QuoteScan(part, j) ==> seg in QuoteScan(part, from)
  {
    var front, after := Gap(part, from, i) + Quoted(part, i, j), QuoteScan(part, j);
    ScanStep(part, from);
    InConcat(front, after);
  }

  /** Every highlighted word of a quote scan is non-empty, holds no quote,
      and is emitted between the quotes it was matched with. */
  lemma {:induction false} QuoteScanBracketed(part: string, from: nat)
    requires from <= |part|
    ensures Bracketed(QuoteScan(part, from))
    decreases |part| - from
  {
    var r := FindQuoted(part, from);
    if r.None? {
      assert Bracketed(Rest(part, from));
    } else {
      var gap, quoted := Gap(part, from, r.value.0), Quoted(part, r.value.0, r.value.1);
      FindQuotedMatches(part, from);
      assert Bracketed(gap);
      QuotedBracketed(part, r.value.0, r.value.1);
      QuoteScanBracketed(part, r.value.1);
      BracketedConcat(gap, quoted);
      BracketedConcat(gap + quoted, QuoteScan(part, r.value.1));
    }
  }

  /** The segments of one match bracket its word. */
  lemma QuotedBracketed(part: string, i: nat, j: nat)
    requires QuotedAt(part, i, j)
    ensures Bracketed(Quoted(part, i, j))
  {
    var segs := Quoted(part, i, j);
    assert segs[1].text == part[i + 1..j - 1];
    forall m | 0 <= m < |segs[1].text|
      ensures !IsQuote(segs[1].text[m])
    {
      assert segs[1].text[m] == part[i + 1 + m];
    }
  }

  lemma BracketedConcat(a: seq<Segment>, b: seq<Segment>)
    requires Bracketed(a) && Bracketed(b)
    ensures Bracketed(a + b)
  {
    var c := a + b;
    forall k | 0 <= k < |c| && c[k].Mark?
      ensures 0 < k < |c| - 1 && QuoteSegment(c[k - 1]) && QuoteSegment(c[k + 1])
    {
      if k < |a| {
        assert a[k].Mark?;
      } else {
        assert b[k - |a|].Mark?;
      }
    }
  }

  /** The scan shows exactly the scanned text: nothing is dropped or added. */
  lemma {:induction false} QuoteScanShowsPart(part: string, from: nat)
    requires from <= |part|
    ensures Shown(QuoteScan(part, from)) == part[from..]
    decreases |part| - from
  {
    var r := FindQuoted(part, from);
    if r.Some? {
      var start, end := r.value.0, r.value.1;
      var gap, quoted, rest := Gap(part, from, start), Quoted(part, start, end), QuoteScan(part, end);
      assert QuoteScan(part, from) == gap + quoted + rest;
      QuoteScanShowsPart(part, end);
      ShownThree(gap, quoted, rest);
      SliceThree(part, from, start, end);
    }
  }

  lemma ShownThree(a: seq<Segment>, b: seq<Segment>, c: seq<Segment>)
    ensures Shown(a + b + c) == Shown(a) + Shown(b) + Shown(c)
  {
    ShownConcat(a + b, c);
    ShownConcat(a, b);
  }

  lemma FlattenThree(x: string, y: string, z: string)
    ensures Flatten([x, y, z]) == x + y + z
  {
    assert [x, y, z] == [x] + [y] + [z];
    FlattenConcat([x] + [y], [z]);
    FlattenConcat([x], [y]);
    FlattenOne(x);
    FlattenOne(y);
    FlattenOne(z);
  }

  /** The segments for backtick piece number `idx`: odd pieces are
      highlighted whole, even pieces go through the quote scan. */
  function PieceSegments(piece: string, idx: nat): (segs: seq<Segment>)
    ensures Shown(segs) == piece
  {
    if idx % 2 == 1 then
      FlattenOne(piece);
      assert Texts([Mark(piece)]) == [piece];
      [Mark(piece)]
    else
      QuoteScanShowsPart(piece, 0);
      assert piece[0..] == piece;
      QuoteScan(piece, 0)
  }

  /** The segments of each backtick piece of a line, in order. */
  function Blocks(pieces: seq<string>): (blocks: seq<seq<Segment>>)
    ensures |blocks| == |pieces|
  {
    seq(|pieces|, k requires 0 <= k < |pieces| => PieceSegments(pieces[k], k))
  }

  /** `highlightInline(line)` as a value. */
  function Highlight(line: string): seq<Segment> {
    Flatten(Blocks(Split(line, '`')))
  }

  /** Blocks that show the pieces one by one show their concatenation. */
  lemma {:induction false} ShownFlatten(blocks: seq<seq<Segment>>, pieces: seq<string>)
    requires |blocks| == |pieces|
    requires forall k :: 0 <= k < |blocks| ==> Shown(blocks[k]) == pieces[k]
    ensures Shown(Flatten(blocks)) == Flatten(pieces)
    decreases |blocks|
  {
    if blocks == [] {
      assert Texts([]) == [];
    } else {
      var n := |blocks|;
      ShownFlatten(blocks[..n - 1], pieces[..n - 1]);
      ShownConcat(Flatten(blocks[..n - 1]), blocks[n - 1]);
    }
  }

  /** Every piece between a pair of backticks (an odd piece) is highlighted
      whole. */
  lemma OddPiecesMarked(line: string)
    ensures var pieces := Split(line, '`');
            forall k :: 0 <= k < |pieces| && k % 2 == 1 ==> Mark(pieces[k]) in Highlight(line)
  {
    var pieces := Split(line, '`');
    var blocks := Blocks(pieces);
    forall k | 0 <= k < |pieces| && k % 2 == 1
      ensures Mark(pieces[k]) in Highlight(line)
    {
      assert blocks[k] == [Mark(pieces[k])];
      FlattenHas(blocks, k, Mark(pieces[k]));
    }
  }

  /** In an even piece, every segment of its quote scan, and so every
      quoted word the scan marks, appears in the highlight of the line. */
  lemma EvenPiecesScanned(line: string)
    ensures var pieces := Split(line, '`');
            forall k, seg :: 0 <= k < |pieces| && k % 2 == 0 && seg in QuoteScan(pieces[k], 0)
              ==> seg in Highlight(line)
  {
    var pieces := Split(line, '`');
    var blocks := Blocks(pieces);
    forall k, seg | 0 <= k < |pieces| && k % 2 == 0 && seg in QuoteScan(pieces[k], 0)
      ensures seg in Highlight(line)
    {
      assert blocks[k] == QuoteScan(pieces[k], 0);
      FlattenHas(blocks, k, seg);
    }
  }

  /** Highlighting shows the line with its backticks removed and nothing
      else changed. */
  lemma HighlightShowsLineWithoutBackticks(line: string)
    ensures Shown(Highlight(line)) == Without(line, '`')
  {
    var pieces := Split(line, '`');
    ShownFlatten(Blocks(pieces), pieces);
    FlattenSplit(line, '`');
  }

  /** The quote loop of `highlightInline` for one even piece. The scan
      position `lastIndex` strictly increases with every match. */
  method HighlightQuotes(part: string) returns (segs: seq<Segment>)
    ensures segs == QuoteScan(part, 0)
  {
    segs := [];
    var lastIndex := 0;
    var found := FindQuoted(part, lastIndex);
    while found.Some?
      invariant lastIndex <= |part|
      invariant found == FindQuoted(part, lastIndex)
      invariant segs + QuoteScan(part, lastIndex) == QuoteScan(part, 0)
      decreases |part| - lastIndex
    {
      var start, end := found.value.0, found.value.1;
      ghost var before := segs;
      if start > lastIndex {
        segs := segs + [Plain(part[lastIndex..start])];
      }
      segs := segs + [Plain([part[start]]), Mark(part[start + 1..end - 1]), Plain([part[end - 1]])];
      PushMatch(part, lastIndex, start, end, before);
      ScanAdvance(part, lastIndex, before, segs);
      lastIndex := end;
      found := FindQuoted(part, lastIndex);
    }
    ghost var before := segs;
    if lastIndex < |part| {
      segs := segs + [Plain(part[lastIndex..])];
    }
    ScanDone(part, lastIndex, before, segs);
  }

  /** Once no match is left, the final push is the rest of the scan. */
  lemma ScanDone(part: string, from: nat, before: seq<Segment>, segs: seq<Segment>)
    requires from <= |part| && FindQuoted(part, from).None?
    requires segs == if from < |part| then before + [Plain(part[from..])] else before
    ensures segs == before + QuoteScan(part, from)
  {
    ScanStep(part, from);
  }

  /** The loop's two pushes for one match append its gap and the match. */
  lemma PushMatch(part: string, from: nat, start: nat, end: nat, before: seq<Segment>)
    requires from <= start && start + 2 < end <= |part|
    ensures (if start > from then before + [Plain(part[from..start])] else before)
              + [Plain([part[start]]), Mark(part[start + 1..end - 1]), Plain([part[end - 1]])]
            == before + Gap(part, from, start) + Quoted(part, start, end)
  {
  }

  /** After the pushes for the next match, the segments still to come are
      the scan from the match's end. */
  lemma ScanAdvance(part: string, from: nat, before: seq<Segment>, segs: seq<Segment>)
    requires from <= |part| && FindQuoted(part, from).Some?
    requires segs == before + Gap(part, from, FindQuoted(part, from).value.0)
                     + Quoted(part, FindQuoted(part, from).value.0, FindQuoted(part, from).value.1)
    ensures segs + QuoteScan(part, FindQuoted(part, from).value.1) == before + QuoteScan(part, from)
  {
    var (start, end) := FindQuoted(part, from).value;
    ScanStep(part, from);
    ConcatAssoc(before, Gap(part, from, start), Quoted(part, start, end), QuoteScan(part, end));
  }

  lemma ConcatAssoc<T>(a: seq<T>, b: seq<T>, c: seq<T>, d: seq<T>)
    ensures a + b + c + d == a + (b + c + d)
  {
  }

  /** One step of the scan: the gap before the next match, the match, and
      the scan after it; or the remaining text when there is no match. */
  lemma ScanStep(part: string, from: nat)
    requires from <= |part|
    ensures FindQuoted(part, from).None? ==> QuoteScan(part, from) == Rest(part, from)
    ensures FindQuoted(part, from).Some? ==>
      var (start, end) := FindQuoted(part, from).value;
      QuoteScan(part, from) == Gap(part, from, start) + Quoted(part, start, end) + QuoteScan(part, end)
  {
  }

  /** `highlightInline`: split on backticks and emit each piece's segments
      in order. */
  method HighlightInline(line: string) returns (segments: seq<Segment>)
    ensures segments == Highlight(line)
    ensures Shown(segments) == Without(line, '`')
  {
    var parts := Split(line, '`');
    ghost var blocks := Blocks(parts);
    segments := [];
    for idx := 0 to |parts|
      invariant segments == Flatten(blocks[..idx])
    {
      var piece: seq<Segment>;
      if idx % 2 == 1 {
        piece := [Mark(parts[idx])];
      } else {
        piece := HighlightQuotes(parts[idx]);
      }
      FlattenPrefix(blocks, idx + 1);
      segments := segments + piece;
    }
    assert blocks[..|parts|] == blocks;
    HighlightShowsLineWithoutBackticks(line);
  }

  // ---------------------------------------------------------------------
  // Keyword lines

  predicate IsColon(c: char) { c == ':' || c == '：' }

  predicate IsBullet(c: char) { c == '-' || c == '•' }

  /** `p` matches `\s*[-•]?\s*`: leading whitespace, then either nothing
      or one bullet followed by whitespace only. */
  predicate BulletShaped(p: string) {
    var a := LeadingSpaces(p);
    a == |p| || (IsBullet(p[a]) && AllSpace(p[a + 1..]))
  }

  /** The leading whitespace of a prefix is cut at the prefix's end. */
  lemma {:induction false} LeadingSpacesOfPrefix(s: string, m: nat)
    requires m <= |s|
    ensures LeadingSpaces(s[..m]) == if LeadingSpaces(s) < m then LeadingSpaces(s) else m
    decreases m
  {
    if m > 0 && IsSpace(s[0]) {
      assert s[..m][1..] == s[1..][..m - 1];
      LeadingSpacesOfPrefix(s[1..], m - 1);
    }
  }

  /** A prefix of a bullet-shaped string is bullet-shaped. */
  lemma ShapedPrefix(s: string, p: nat)
    requires p <= |s| && BulletShaped(s)
    ensures BulletShaped(s[..p])
  {
    LeadingSpacesOfPrefix(s, p);
    var a := LeadingSpaces(s);
    if a < p {
      assert s[..p][a] == s[a];
      assert s[..p][a + 1..] == s[a + 1..][..p - a - 1];
    }
  }

  /** Length of the prefix `\s*[-•]?\s*` takes when every quantifier is
      greedy: the whitespace, a bullet if one follows, and the whitespace
      after it. */
  function GreedyPrefix(line: string): (n: nat)
    ensures n <= |line|
  {
    var a := LeadingSpaces(line);
    if a < |line| && IsBullet(line[a]) then a + 1 + LeadingSpaces(line[a + 1..]) else a
  }

  /** The greedy prefix is the longest bullet-shaped prefix of the line. */
  lemma GreedyPrefixIsLongest(line: string, m: nat)
    requires m <= |line|
    ensures BulletShaped(line[..m]) <==> m <= GreedyPrefix(line)
  {
    var n := GreedyPrefix(line);
    if m <= n {
      GreedyPrefixShaped(line);
      ShapedPrefix(line[..n], m);
      assert line[..n][..m] == line[..m];
    } else {
      BeyondGreedyPrefix(line, m);
    }
  }

  lemma GreedyPrefixShaped(line: string)
    ensures BulletShaped(line[..GreedyPrefix(line)])
  {
    var a, n := LeadingSpaces(line), GreedyPrefix(line);
    LeadingSpacesOfPrefix(line, n);
    if n > a {
      var b := LeadingSpaces(line[a + 1..]);
      LeadingSpacesSpec(line[a + 1..]);
      var p := line[..n];
      assert LeadingSpaces(p) == a;
      assert p[a] == line[a];
      assert p[a + 1..] == line[a + 1..][..b];
    }
  }

  lemma BeyondGreedyPrefix(line: string, m: nat)
    requires GreedyPrefix(line) < m <= |line|
    ensures !BulletShaped(line[..m])
  {
    var a, n := LeadingSpaces(line), GreedyPrefix(line);
    LeadingSpacesOfPrefix(line, m);
    var p := line[..m];
    assert LeadingSpaces(p) == a;
    assert p[a] == line[a];
    if n > a {
      var b := LeadingSpaces(line[a + 1..]);
      LeadingSpacesSpec(line[a + 1..]);
      assert p[a + 1..][b] == line[a + 1..][b];
    }
  }

  /** Index of the first ASCII or full-width colon. */
  function FirstColon(line: string): (c: Option<nat>)
    ensures c.Some? ==> c.value < |line|
    decreases |line|
  {
    if line == [] then None
    else if IsColon(line[0]) then Some(0)
    else match FirstColon(line[1..])
      case None => None
      case Some(i) => Some(i + 1)
  }

  /** No colon comes before the one found, and none at all when none is found. */
  lemma {:induction false} FirstColonSpec(line: string)
    ensures FirstColon(line).None? ==> forall i :: 0 <= i < |line| ==> !IsColon(line[i])
    ensures FirstColon(line).Some? ==> IsColon(line[FirstColon(line).value])
    ensures FirstColon(line).Some? ==> forall i :: 0 <= i < FirstColon(line).value ==> !IsColon(line[i])
    decreases |line|
  {
    if line != [] && !IsColon(line[0]) {
      FirstColonSpec(line[1..]);
      forall i | 1 <= i < |line|
        ensures line[i] == line[1..][i - 1]
      {
      }
    }
  }

  /** The four groups of `^(\s*[-•]?\s*)([^:：]+)([:：]\s*)(.*)$`. */
  datatype KeywordParts = KeywordParts(prefix: string, word: string, sep: string, rest: string)

  /** Some character of `s` is a line terminator. */
  predicate HasLineTerminator(s: string)
    decreases |s|
  {
    s != [] && (IsLineTerminator(s[0]) || HasLineTerminator(s[1..]))
  }

  /** The match of the keyword-line pattern as backtracking finds it: the
      prefix is cut back to leave at least one term character before the
      first colon, and `\s*` after the colon is greedy. */
  function MatchKeyword(line: string): (m: Option<KeywordParts>)
  {
    match FirstColon(line)
    case None => None
    case Some(c) =>
      if c == 0 || HasLineTerminator(PartsAt(line, c).rest) then None
      else Some(PartsAt(line, c))
  }

  /** The four groups when the first colon is at index `c`: the prefix as
      long as it may be, the term up to the colon, the colon with the
      whitespace after it, and the rest of the line. */
  function PartsAt(line: string, c: nat): (m: KeywordParts)
    requires 0 < c < |line|
  {
    var g := GreedyPrefix(line);
    var p := if g < c then g else c - 1;
    var w := LeadingSpaces(line[c + 1..]);
    KeywordParts(line[..p], line[p..c], line[c..c + 1 + w], line[c + 1 + w..])
  }

  /** The pattern fails exactly when the line has no colon, starts with
      one, or has a line terminator after the first colon and the
      whitespace following it (`.` does not match line terminators). */
  lemma MatchKeywordFails(line: string)
    ensures MatchKeyword(line).None? <==>
              || FirstColon(line).None?
              || FirstColon(line).value == 0
              || HasLineTerminator(TrimStart(line[FirstColon(line).value + 1..]))
  {
    match FirstColon(line)
    case None =>
    case Some(c) =>
      if c > 0 {
        RestOfParts(line, c);
      }
  }

  /** The rest group is what follows the colon with leading whitespace trimmed. */
  lemma RestOfParts(line: string, c: nat)
    requires 0 < c < |line|
    ensures PartsAt(line, c).rest == TrimStart(line[c + 1..])
  {
    var w := LeadingSpaces(line[c + 1..]);
    SliceOfSuffix(line, c + 1, w);
  }

  /** On success the four groups put the line back together, the term has
      no colon, the separator is the first colon with all the whitespace
      after it, and the rest starts at the next other character and holds
      no line terminator. */
  lemma MatchKeywordGroups(line: string)
    requires MatchKeyword(line).Some?
    ensures var m := MatchKeyword(line).value;
            && m.prefix + m.word + m.sep + m.rest == line
            && m.word != [] && (forall i :: 0 <= i < |m.word| ==> !IsColon(m.word[i]))
            && m.sep != [] && IsColon(m.sep[0]) && AllSpace(m.sep[1..])
            && (m.rest == [] || !IsSpace(m.rest[0])) && !HasLineTerminator(m.rest)
  {
    var c := FirstColon(line).value;
    assert MatchKeyword(line).value == PartsAt(line, c);
    FirstColonSpec(line);
    PartsAtGroups(line, c);
  }

  /** The groups cut at the first colon `c`, whatever the rest holds. */
  lemma PartsAtGroups(line: string, c: nat)
    requires 0 < c < |line|
    requires IsColon(line[c]) && forall i :: 0 <= i < c ==> !IsColon(line[i])
    ensures var m := PartsAt(line, c);
            && m.prefix + m.word + m.sep + m.rest == line
            && m.word != [] && (forall i :: 0 <= i < |m.word| ==> !IsColon(m.word[i]))
            && m.sep != [] && IsColon(m.sep[0]) && AllSpace(m.sep[1..])
            && (m.rest == [] || !IsSpace(m.rest[0]))
  {
    var g := GreedyPrefix(line);
    var p := if g < c then g else c - 1;
    var w := LeadingSpaces(line[c + 1..]);
    SliceOfSuffix(line, c + 1, w);
    LeadingSpacesSpec(line[c + 1..]);
    assert AllSpace(line[c + 1..c + 1 + w]);
    CutAtColon(line, p, c, w);
  }

  /** Cutting a line before its first colon, at the colon, and after the
      whitespace that follows it. */
  lemma CutAtColon(line: string, p: nat, c: nat, w: nat)
    requires p < c < |line| && c + 1 + w <= |line|
    requires IsColon(line[c]) && forall i :: 0 <= i < c ==> !IsColon(line[i])
    requires AllSpace(line[c + 1..c + 1 + w])
    ensures line[..p] + line[p..c] + line[c..c + 1 + w] + line[c + 1 + w..] == line
    ensures forall i :: 0 <= i < |line[p..c]| ==> !IsColon(line[p..c][i])
    ensures IsColon(line[c..c + 1 + w][0]) && AllSpace(line[c..c + 1 + w][1..])
  {
    SliceFour(line, p, c, c + 1 + w);
    SliceTail(line, c, c + 1 + w);
    NoColonInside(line, p, c);
  }

  lemma NoColonInside(s: string, p: nat, c: nat)
    requires p <= c <= |s|
    requires forall i :: 0 <= i < c ==> !IsColon(s[i])
    ensures forall i :: 0 <= i < |s[p..c]| ==> !IsColon(s[p..c][i])
  {
    forall i | 0 <= i < |s[p..c]|
      ensures !IsColon(s[p..c][i])
    {
      assert s[p..c][i] == s[p + i];
    }
  }

  /** On success the prefix is the longest bullet-shaped prefix that still
      leaves a non-empty term. */
  lemma MatchKeywordPrefix(line: string)
    requires MatchKeyword(line).Some?
    ensures var m := MatchKeyword(line).value;
            && BulletShaped(m.prefix)
            && forall n :: |m.prefix| < n < |m.prefix| + |m.word| ==> !BulletShaped(line[..n])
  {
    var c := FirstColon(line).value;
    var m := MatchKeyword(line).value;
    var p := |m.prefix|;
    assert m.prefix == line[..p];
    GreedyPrefixIsLongest(line, p);
    forall n | p < n < p + |m.word|
      ensures !BulletShaped(line[..n])
    {
      GreedyPrefixIsLongest(line, n);
    }
  }

  /** What a line of the keyword section shows: the line unchanged when the
      pattern fails, else the prefix, the trimmed term in keyword style, the
      separator and the highlighted rest. */
  datatype KeywordView =
    | Unstructured(line: string)
    | Structured(prefix: string, term: string, sep: string, rest: seq<Segment>)

  function KeywordLineView(line: string): KeywordView {
    match MatchKeyword(line)
    case None => Unstructured(line)
    case Some(m) => Structured(m.prefix, Trim(m.word), m.sep, Highlight(m.rest))
  }

  /** `renderKeywordLine`. */
  method RenderKeywordLine(line: string) returns (view: KeywordView)
    ensures view == KeywordLineView(line)
  {
    var m := MatchKeyword(line);
    if m.None? {
      return Unstructured(line);
    }
    var rest := HighlightInline(m.value.rest);
    view := Structured(m.value.prefix, Trim(m.value.word), m.value.sep, rest);
  }

  // ---------------------------------------------------------------------
  // The explanation block

  /** How one explanation line is shown. */
  datatype LineView =
    | HeaderLine(text: string)
    | KeywordLine(view: KeywordView)
    | PlainLine(segments: seq<Segment>)

  /** The view of line `k`: headers verbatim, lines under the keyword
      section through the keyword pattern, every other line highlighted
      with its `**` removed. */
  function LineViewAt(lines: seq<string>, k: nat): LineView
    requires k < |lines|
  {
    var line := lines[k];
    if SectionName(line).Some? then HeaderLine(line)
    else if ActiveSection(lines, k) == Some(KeywordSection) then KeywordLine(KeywordLineView(line))
    else PlainLine(Highlight(StripBold(line)))
  }

  lemma KeywordLineWhenActive(lines: seq<string>, k: nat)
    requires k < |lines|
    ensures LineViewAt(lines, k).KeywordLine? <==>
              SectionNames(lines)[k].None? && LatestTitle(SectionNames(lines), k) == Some(KeywordSection)
  {
  }

  /** A line gets keyword rendering exactly when it is not a header and the
      latest header before it opens the keyword section. */
  lemma KeywordLinesFollowKeywordHeader(lines: seq<string>, k: nat)
    requires k < |lines|
    ensures var names := SectionNames(lines);
            LineViewAt(lines, k).KeywordLine? <==>
              && names[k].None?
              && exists j :: 0 <= j < k && names[j] == Some(KeywordSection)
                             && forall m :: j < m < k ==> names[m].None?
  {
    var names := SectionNames(lines);
    KeywordLineWhenActive(lines, k);
    LatestTitleIsLatest(names, k);
    if exists j :: 0 <= j < k && names[j] == Some(KeywordSection)
                   && forall m :: j < m < k ==> names[m].None? {
      var j :| 0 <= j < k && names[j] == Some(KeywordSection)
               && forall m :: j < m < k ==> names[m].None?;
      LatestTitleOfLastName(names, j, k);
    }
  }

  /** The explanation block: the lines are visited in order while the
      active section is carried from one line to the next. */
  method RenderExplanation(explain: string) returns (views: seq<LineView>)
    ensures |views| == |ExplainLines(explain)|
    ensures forall k :: 0 <= k < |views| ==> views[k] == LineViewAt(ExplainLines(explain), k)
  {
    var lines := ExplainLines(explain);
    ghost var all := LineViews(lines);
    var activeSection: Option<string> := None;
    views := [];
    for idx := 0 to |lines|
      invariant activeSection == ActiveSection(lines, idx)
      invariant views == all[..idx]
    {
      var line := lines[idx];
      var sectionName := SectionName(line);
      var view: LineView;
      if sectionName.Some? {
        activeSection := sectionName;
        view := HeaderLine(line);
      } else if activeSection == Some(KeywordSection) {
        var keyword := RenderKeywordLine(line);
        view := KeywordLine(keyword);
      } else {
        var segments := HighlightInline(StripBold(line));
        view := PlainLine(segments);
      }
      assert view == all[idx];
      ExtendPrefix(all, idx);
      views := views + [view];
    }
    assert all[..|lines|] == all;
  }

  /** The views of all the lines. */
  function LineViews(lines: seq<string>): (views: seq<LineView>)
    ensures |views| == |lines|
    ensures forall k :: 0 <= k < |lines| ==> views[k] == LineViewAt(lines, k)
  {
    seq(|lines|, k requires 0 <= k < |lines| => LineViewAt(lines, k))
  }

  lemma ExtendPrefix<T>(s: seq<T>, i: nat)
    requires i < |s|
    ensures s[..i] + [s[i]] == s[..i + 1]
  {
  }
}
