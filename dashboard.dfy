/** The list logic of the dashboard page in dashboard2.py: the key figures
    per urgency label, the priority-and-search filter over the email
    records, and the ten-dot risk gauge on each card. */
module Dashboard {
  import opened Text
  import opened Sequences
  import Triage

  /** The fields of an email record the page reads. `urgency` is the label
      string classify_urgency returned. */
  datatype EmailRecord = EmailRecord(
    subject: string,
    sender: string,
    summary: string,
    urgency: string,
    similarityScore: real,
    entities: seq<string>)

  predicate IsKnownLabel(urgencyLabel: string) {
    urgencyLabel == "Red" || urgencyLabel == "Orange" || urgencyLabel == "Yellow"
  }

  // ---------------------------------------------------------------------
  // Key figures
  // ---------------------------------------------------------------------

  /** `len([e for e in emails if e['urgency'] == label])`: never more
      than there are emails, and none when no email carries the label. */
  function CountUrgency(emails: seq<EmailRecord>, urgencyLabel: string): (n: nat)
    ensures n <= |emails|
    ensures (forall i :: 0 <= i < |emails| ==> emails[i].urgency != urgencyLabel) ==> n == 0
  {
    if emails == [] then 0
    else CountUrgency(emails[..|emails| - 1], urgencyLabel)
         + (if emails[|emails| - 1].urgency == urgencyLabel then 1 else 0)
  }

  datatype KeyFigures = KeyFigures(total: nat, critical: nat, medium: nat, low: nat)

  /** The four key figures at the top of the page: the total, and the three
      label counts, which together never exceed it. */
  function ComputeKeyFigures(emails: seq<EmailRecord>): (k: KeyFigures)
    ensures k.total == |emails|
    ensures k.critical + k.medium + k.low <= k.total
  {
    KeyFiguresAddUp(emails);
    KeyFigures(|emails|, CountUrgency(emails, "Red"), CountUrgency(emails, "Orange"),
               CountUrgency(emails, "Yellow"))
  }

  /** The three label counts never exceed the total, and add up to it when
      every record carries one of the three labels. */
  lemma {:induction false} KeyFiguresAddUp(emails: seq<EmailRecord>)
    ensures var sum := CountUrgency(emails, "Red") + CountUrgency(emails, "Orange") + CountUrgency(emails, "Yellow");
            sum <= |emails|
            && ((forall i :: 0 <= i < |emails| ==> IsKnownLabel(emails[i].urgency)) ==> sum == |emails|)
  {
    if emails != [] {
      var init := emails[..|emails| - 1];
      KeyFiguresAddUp(init);
      if forall i :: 0 <= i < |emails| ==> IsKnownLabel(emails[i].urgency) {
        assert forall i :: 0 <= i < |init| ==> IsKnownLabel(init[i].urgency) by {
          forall i | 0 <= i < |init| ensures IsKnownLabel(init[i].urgency) {
            assert init[i] == emails[i];
          }
        }
        assert IsKnownLabel(emails[|emails| - 1].urgency);
      }
    }
  }

  /** Records whose urgency came from classify_urgency make the counts add
      up exactly. */
  lemma ClassifiedKeyFiguresAddUp(emails: seq<EmailRecord>, levels: seq<Triage.Urgency>)
    requires |levels| == |emails|
    requires forall i :: 0 <= i < |emails| ==> emails[i].urgency == Triage.Label(levels[i])
    ensures var k := ComputeKeyFigures(emails);
            k.critical + k.medium + k.low == k.total
  {
    KeyFiguresAddUp(emails);
  }

  // ---------------------------------------------------------------------
  // Filter
  // ---------------------------------------------------------------------

  /** The priority buttons: 'ALL' passes every record, any other choice
      only the records of that label. */
  function MatchesPriority(e: EmailRecord, filterPriority: string): (b: bool)
    ensures filterPriority == "ALL" ==> b
    ensures filterPriority != "ALL" ==> (b <==> e.urgency == filterPriority)
  {
    filterPriority == "ALL" || e.urgency == filterPriority
  }

  /** An empty search term matches everything; otherwise its lower-cased
      form must occur in the lower-cased subject, sender or summary. */
  function MatchesSearch(e: EmailRecord, searchTerm: string): (b: bool)
    ensures b <==> searchTerm == ""
                   || (exists i :: OccursAt(Lower(e.subject), Lower(searchTerm), i))
                   || (exists i :: OccursAt(Lower(e.sender), Lower(searchTerm), i))
                   || (exists i :: OccursAt(Lower(e.summary), Lower(searchTerm), i))
  {
    var term := Lower(searchTerm);
    ContainsIff(Lower(e.subject), term);
    ContainsIff(Lower(e.sender), term);
    ContainsIff(Lower(e.summary), term);
    searchTerm == ""
    || Contains(Lower(e.subject), term)
    || Contains(Lower(e.sender), term)
    || Contains(Lower(e.summary), term)
  }

  predicate Shown(e: EmailRecord, filterPriority: string, searchTerm: string) {
    MatchesPriority(e, filterPriority) && MatchesSearch(e, searchTerm)
  }

  /** `filtered_emails`: the records the page lists, in the given order;
      never more than there are ("Displaying n of m"), each one shown. */
  function FilterEmails(emails: seq<EmailRecord>, filterPriority: string, searchTerm: string): (shown: seq<EmailRecord>)
    ensures |shown| <= |emails|
    ensures forall k :: 0 <= k < |shown| ==> Shown(shown[k], filterPriority, searchTerm)
  {
    if emails == [] then []
    else FilterEmails(emails[..|emails| - 1], filterPriority, searchTerm)
         + (if Shown(emails[|emails| - 1], filterPriority, searchTerm) then [emails[|emails| - 1]] else [])
  }

  /** A record is listed exactly when it is one of the emails and matches. */
  lemma {:induction false} FilterMembership(emails: seq<EmailRecord>, filterPriority: string, searchTerm: string, e: EmailRecord)
    ensures e in FilterEmails(emails, filterPriority, searchTerm)
        <==> e in emails && Shown(e, filterPriority, searchTerm)
  {
    if emails != [] {
      var init := emails[..|emails| - 1];
      FilterMembership(init, filterPriority, searchTerm, e);
      assert emails == init + [emails[|emails| - 1]];
    }
  }

  /** The filter keeps the emails' order. */
  lemma {:induction false} FilterInOrder(emails: seq<EmailRecord>, filterPriority: string, searchTerm: string)
    ensures IsSubsequence(FilterEmails(emails, filterPriority, searchTerm), emails)
  {
    if emails != [] {
      var init, last := emails[..|emails| - 1], emails[|emails| - 1];
      var kept := FilterEmails(init, filterPriority, searchTerm);
      FilterInOrder(init, filterPriority, searchTerm);
      assert emails == init + [last];
      if Shown(last, filterPriority, searchTerm) {
        var l := kept + [last];
        assert l[..|l| - 1] == kept;
      } else {
        assert FilterEmails(emails, filterPriority, searchTerm) == kept;
        SubsequenceDropLast(kept, init, last);
      }
    }
  }

  /** A label filter lists only records of that label. */
  lemma FilterOnlyThatLabel(emails: seq<EmailRecord>, filterPriority: string, searchTerm: string, i: nat)
    requires filterPriority != "ALL"
    requires i < |FilterEmails(emails, filterPriority, searchTerm)|
    ensures FilterEmails(emails, filterPriority, searchTerm)[i].urgency == filterPriority
  {
    FilterMembership(emails, filterPriority, searchTerm, FilterEmails(emails, filterPriority, searchTerm)[i]);
  }

  /** 'ALL' with an empty search lists every email unchanged. */
  lemma {:induction false} FilterAllIsIdentity(emails: seq<EmailRecord>)
    ensures FilterEmails(emails, "ALL", "") == emails
  {
    if emails != [] {
      FilterAllIsIdentity(emails[..|emails| - 1]);
    }
  }

  /** Choosing a label with no search lists as many records as that
      label's key figure. */
  lemma {:induction false} FilterAgreesWithCount(emails: seq<EmailRecord>, urgencyLabel: string)
    requires urgencyLabel != "ALL"
    ensures |FilterEmails(emails, urgencyLabel, "")| == CountUrgency(emails, urgencyLabel)
  {
    if emails != [] {
      FilterAgreesWithCount(emails[..|emails| - 1], urgencyLabel);
    }
  }

  // ---------------------------------------------------------------------
  // Card: class, badge and risk gauge
  // ---------------------------------------------------------------------

  /** `{"Red": "critical", "Orange": "medium", "Yellow": "low"}.get(u, "low")`:
      one of three classes, and "low" for every label but Red and Orange. */
  function UrgencyClass(urgency: string): (cls: string)
    ensures cls == "critical" || cls == "medium" || cls == "low"
    ensures cls == "low" <==> urgency != "Red" && urgency != "Orange"
  {
    if urgency == "Red" then "critical"
    else if urgency == "Orange" then "medium"
    else "low"
  }

  /** `{"Red": "CRITICAL", "Orange": "MEDIUM", "Yellow": "LOW"}.get(u, "UNKNOWN")`:
      the badge agrees with the card's class, except that a label outside
      the three is styled "low" but badged UNKNOWN. */
  function PriorityLabel(urgency: string): (badge: string)
    ensures badge == "CRITICAL" <==> UrgencyClass(urgency) == "critical"
    ensures badge == "MEDIUM" <==> UrgencyClass(urgency) == "medium"
    ensures badge == "LOW" || badge == "UNKNOWN" <==> UrgencyClass(urgency) == "low"
  {
    if urgency == "Red" then "CRITICAL"
    else if urgency == "Orange" then "MEDIUM"
    else if urgency == "Yellow" then "LOW"
    else "UNKNOWN"
  }

  /** A label classify_urgency produces always gets a real badge; anything
      else is styled low and badged UNKNOWN. */
  lemma PriorityLabelKnown(urgency: string)
    ensures PriorityLabel(urgency) == "UNKNOWN" <==> !IsKnownLabel(urgency)
    ensures !IsKnownLabel(urgency) ==> UrgencyClass(urgency) == "low"
    ensures forall u :: PriorityLabel(Triage.Label(u)) != "UNKNOWN"
  {
  }

  function RiskBonus(urgencyClass: string): int {
    if urgencyClass == "critical" then 3 else if urgencyClass == "medium" then 1 else 0
  }

  /** `min(10, similarity * 10 + bonus)`: capped at 10. */
  function RiskScore(similarityScore: real, urgencyClass: string): (r: real)
    ensures r <= 10.0
    ensures r <= similarityScore * 10.0 + RiskBonus(urgencyClass) as real
    ensures r == 10.0 || r == similarityScore * 10.0 + RiskBonus(urgencyClass) as real
  {
    var raw := similarityScore * 10.0 + RiskBonus(urgencyClass) as real;
    if raw < 10.0 then raw else 10.0
  }

  /** Python's `int(x)` on a float: truncation toward zero. */
  function TruncToInt(x: real): (n: int)
    ensures x >= 0.0 ==> n as real <= x < n as real + 1.0
    ensures x < 0.0 ==> n as real - 1.0 < x <= n as real
  {
    if x >= 0.0 then x.Floor else -((-x).Floor)
  }

  function FilledDot(urgencyClass: string): string {
    "<span class=\"dot filled " + urgencyClass + "\"></span>"
  }

  const EmptyDot: string := "<span class=\"dot\"></span>"

  /** The first `n` dots of a gauge whose first `filled` dots are filled. */
  function Dots(n: nat, filled: int, urgencyClass: string): seq<string> {
    Gauge(n, filled, FilledDot(urgencyClass), EmptyDot)
  }

  /** `n` slots, the first `filled` of them `on` and the rest `off`. */
  function Gauge(n: nat, filled: int, on: string, off: string): seq<string> {
    seq(n, j requires 0 <= j < n => if j < filled then on else off)
  }

  /** The ten dots of the gauge for a risk score, each filled or empty. */
  function RiskDots(riskScore: real, urgencyClass: string): (dots: seq<string>)
    ensures |dots| == 10
    ensures forall j :: 0 <= j < 10 ==> dots[j] == FilledDot(urgencyClass) || dots[j] == EmptyDot
  {
    Dots(10, TruncToInt(riskScore), urgencyClass)
  }

  /** `risk_dots_html`: the dots concatenated, which is all the filled
      dots first and then the empty ones, ten in all. */
  function RiskDotsHtml(riskScore: real, urgencyClass: string): (html: string)
    ensures var filled := Clamp(TruncToInt(riskScore), 10);
            html == Repeat(FilledDot(urgencyClass), filled) + Repeat(EmptyDot, 10 - filled)
  {
    var dots := RiskDots(riskScore, urgencyClass);
    assert dots == Gauge(10, TruncToInt(riskScore), FilledDot(urgencyClass), EmptyDot);
    JoinGauge(10, TruncToInt(riskScore), FilledDot(urgencyClass), EmptyDot);
    Join("", dots)
  }

  /** `n` copies of `s` back to back. */
  function Repeat(s: string, n: nat): string {
    if n == 0 then "" else s + Repeat(s, n - 1)
  }

  /** Joining a gauge gives its `on` slots, then its `off` ones. */
  lemma {:induction false} JoinGauge(n: nat, filled: int, on: string, off: string)
    ensures Join("", Gauge(n, filled, on, off))
         == Repeat(on, Clamp(filled, n)) + Repeat(off, n - Clamp(filled, n))
  {
    if n > 0 {
      var rest := Gauge(n - 1, filled - 1, on, off);
      var c := Clamp(filled - 1, n - 1);
      var head := if filled > 0 then on else off;
      GaugeCons(n, filled, on, off);
      calc {
        Join("", Gauge(n, filled, on, off));
      == { JoinEmptyCons(head, rest); }
        head + Join("", rest);
      == { JoinGauge(n - 1, filled - 1, on, off); }
        head + (Repeat(on, c) + Repeat(off, n - 1 - c));
      == { RepeatHead(on, off, n, filled); }
        Repeat(on, Clamp(filled, n)) + Repeat(off, n - Clamp(filled, n));
      }
    }
  }

  /** A gauge is its first slot followed by a gauge one shorter. */
  lemma GaugeCons(n: nat, filled: int, on: string, off: string)
    requires n > 0
    ensures Gauge(n, filled, on, off) == [if filled > 0 then on else off] + Gauge(n - 1, filled - 1, on, off)
  {
    assert Gauge(n, filled, on, off)[1..] == Gauge(n - 1, filled - 1, on, off);
  }

  /** One more slot in front adds one copy in front of its own kind. */
  lemma RepeatHead(on: string, off: string, n: nat, filled: int)
    requires n > 0
    ensures var c := Clamp(filled - 1, n - 1);
            (if filled > 0 then on else off) + (Repeat(on, c) + Repeat(off, n - 1 - c))
            == Repeat(on, Clamp(filled, n)) + Repeat(off, n - Clamp(filled, n))
  {
    var c := Clamp(filled - 1, n - 1);
    if filled > 0 {
      assert Clamp(filled, n) == c + 1;
      assert Repeat(on, c + 1) == on + Repeat(on, c);
    } else {
      assert Clamp(filled, n) == 0 && c == 0;
      assert Repeat(off, n) == off + Repeat(off, n - 1);
    }
  }

  /** Joining with no separator puts the head straight before the rest. */
  lemma JoinEmptyCons(x: string, xs: seq<string>)
    ensures Join("", [x] + xs) == x + Join("", xs)
  {
    if xs != [] {
      assert ([x] + xs)[1..] == xs;
    }
  }

  /** The gauge has exactly ten dots, dot j filled exactly when
      j < int(risk_score). */
  lemma RiskDotsShape(riskScore: real, urgencyClass: string)
    ensures |RiskDots(riskScore, urgencyClass)| == 10
    ensures forall j :: 0 <= j < 10 ==>
      (RiskDots(riskScore, urgencyClass)[j] == FilledDot(urgencyClass) <==> j < TruncToInt(riskScore))
    ensures forall j :: 0 <= j < 10 ==>
      (RiskDots(riskScore, urgencyClass)[j] == EmptyDot <==> j >= TruncToInt(riskScore))
  {
    assert |FilledDot(urgencyClass)| != |EmptyDot|;
  }

  /** How many times `x` appears in `xs`. */
  function CountOf(xs: seq<string>, x: string): nat {
    if xs == [] then 0 else CountOf(xs[..|xs| - 1], x) + (if xs[|xs| - 1] == x then 1 else 0)
  }

  function Clamp(t: int, n: nat): nat {
    if t < 0 then 0 else if t > n then n else t
  }

  /** The number of filled dots is `filled` clamped to 0..n. */
  lemma {:induction false} DotsFilledCount(n: nat, filled: int, urgencyClass: string)
    ensures CountOf(Dots(n, filled, urgencyClass), FilledDot(urgencyClass)) == Clamp(filled, n)
  {
    assert |FilledDot(urgencyClass)| != |EmptyDot|;
    if n > 0 {
      var d := Dots(n, filled, urgencyClass);
      assert d[..n - 1] == Dots(n - 1, filled, urgencyClass);
      DotsFilledCount(n - 1, filled, urgencyClass);
    }
  }

  /** On a card the filled dots agree with the "k/10" figure next to them,
      which never exceeds 10 and is never negative for a non-negative
      similarity. */
  lemma CardGaugeMatchesScore(similarityScore: real, urgency: string)
    requires similarityScore >= 0.0
    ensures var risk := RiskScore(similarityScore, UrgencyClass(urgency));
            0 <= TruncToInt(risk) <= 10
            && CountOf(RiskDots(risk, UrgencyClass(urgency)), FilledDot(UrgencyClass(urgency))) == TruncToInt(risk)
  {
    var cls := UrgencyClass(urgency);
    var risk := RiskScore(similarityScore, cls);
    DotsFilledCount(10, TruncToInt(risk), cls);
  }

  /** A critical email with similarity at least 0.7 fills the whole gauge. */
  lemma CriticalHighSimilarityFillsGauge(similarityScore: real)
    requires similarityScore >= 0.7
    ensures TruncToInt(RiskScore(similarityScore, "critical")) == 10
    ensures CountOf(RiskDots(RiskScore(similarityScore, "critical"), "critical"), FilledDot("critical")) == 10
  {
    DotsFilledCount(10, TruncToInt(RiskScore(similarityScore, "critical")), "critical");
  }
}
