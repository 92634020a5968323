/** The email-to-label pipeline of main.py: picking the body text out of a
    parsed message, truncating the sentence list to a summary, and the
    keyword-then-threshold urgency rule. The NLP calls (entities, the
    similarity score, sentence splitting) and HTML-to-text conversion are
    library behaviour and enter as parameters. */
module Triage {
  import opened Wrappers
  import opened Text
  import opened Mime

  // ---------------------------------------------------------------------
  // Urgency classification (classify_urgency)
  // ---------------------------------------------------------------------

  datatype Urgency = Red | Orange | Yellow

  /** The string classify_urgency returns for each level. */
  function Label(u: Urgency): (s: string)
    ensures s == "Red" || s == "Orange" || s == "Yellow"
  {
    match u
    case Red => "Red"
    case Orange => "Orange"
    case Yellow => "Yellow"
  }

  /** Different levels have different labels, so the label tells the level. */
  lemma LabelInjective(u: Urgency, v: Urgency)
    requires u != v
    ensures Label(u) != Label(v)
  {
  }

  /** Severity order Yellow < Orange < Red. */
  function Rank(u: Urgency): nat {
    match u
    case Yellow => 0
    case Orange => 1
    case Red => 2
  }

  /** `any(keyword in text_lower for keyword in keywords)`. */
  predicate KeywordHit(textLower: string, keywords: seq<string>) {
    exists i :: 0 <= i < |keywords| && Contains(textLower, keywords[i])
  }

  /** classify_urgency: the keyword test on the lower-cased text comes
      first; only then the two strict thresholds on the score. */
  function ClassifyUrgency(text: string, keywords: seq<string>, similarityScore: real): (u: Urgency)
    ensures u == Red <==> KeywordHit(Lower(text), keywords) || similarityScore > 0.9
    ensures u == Orange <==> !KeywordHit(Lower(text), keywords) && 0.6 < similarityScore <= 0.9
    ensures u == Yellow <==> !KeywordHit(Lower(text), keywords) && similarityScore <= 0.6
  {
    if KeywordHit(Lower(text), keywords) then Red
    else if similarityScore > 0.9 then Red
    else if similarityScore > 0.6 then Orange
    else Yellow
  }

  /** Any keyword found in the lower-cased text makes the email Red,
      whatever its score. */
  lemma KeywordForcesRed(text: string, keywords: seq<string>, similarityScore: real, i: nat)
    requires i < |keywords| && Contains(Lower(text), keywords[i])
    ensures ClassifyUrgency(text, keywords, similarityScore) == Red
  {
  }

  /** Without a keyword the score alone decides, with both bounds exclusive. */
  lemma ThresholdsWithoutKeyword(text: string, keywords: seq<string>, similarityScore: real)
    requires forall i :: 0 <= i < |keywords| ==> !Contains(Lower(text), keywords[i])
    ensures ClassifyUrgency(text, keywords, similarityScore) == Red <==> similarityScore > 0.9
    ensures ClassifyUrgency(text, keywords, similarityScore) == Orange <==> 0.6 < similarityScore <= 0.9
    ensures ClassifyUrgency(text, keywords, similarityScore) == Yellow <==> similarityScore <= 0.6
  {
  }

  /** A score exactly on a threshold falls to the lower level. */
  lemma BoundaryScores(text: string, keywords: seq<string>)
    requires !KeywordHit(Lower(text), keywords)
    ensures ClassifyUrgency(text, keywords, 0.9) == Orange
    ensures ClassifyUrgency(text, keywords, 0.6) == Yellow
  {
  }

  /** A higher score never gives a lower level. */
  lemma ClassifyMonotone(text: string, keywords: seq<string>, lo: real, hi: real)
    requires lo <= hi
    ensures Rank(ClassifyUrgency(text, keywords, lo)) <= Rank(ClassifyUrgency(text, keywords, hi))
  {
  }

  /** The empty keyword is a substring of every text, so it makes every
      email Red. */
  lemma EmptyKeywordAlwaysRed(text: string, keywords: seq<string>, similarityScore: real)
    requires "" in keywords
    ensures ClassifyUrgency(text, keywords, similarityScore) == Red
  {
    var i :| 0 <= i < |keywords| && keywords[i] == "";
    assert StartsWith(Lower(text), keywords[i]);
  }

  /** Only the text is lower-cased: a keyword holding an upper-case letter
      never matches, and dropping it from the list changes no label. */
  lemma UppercaseKeywordIsInert(text: string, keywords: seq<string>, similarityScore: real, i: nat, j: nat)
    requires i < |keywords| && j < |keywords[i]| && IsUpper(keywords[i][j])
    ensures !Contains(Lower(text), keywords[i])
    ensures ClassifyUrgency(text, keywords, similarityScore)
         == ClassifyUrgency(text, keywords[..i] + keywords[i + 1..], similarityScore)
  {
    UpperNeverInLower(text, keywords[i], j);
    var rest := keywords[..i] + keywords[i + 1..];
    var t := Lower(text);
    if KeywordHit(t, keywords) {
      var k :| 0 <= k < |keywords| && Contains(t, keywords[k]);
      if k < i {
        assert rest[k] == keywords[k];
      } else {
        assert rest[k - 1] == keywords[k];
      }
    }
    if KeywordHit(t, rest) {
      var k :| 0 <= k < |rest| && Contains(t, rest[k]);
      if k < i {
        assert rest[k] == keywords[k];
      } else {
        assert rest[k] == keywords[k + 1];
      }
    }
  }

  /** The keyword list the dashboard passes in. */
  const DashboardKeywords: seq<string> := ["university", "student", "canvas", "Cobalt Strike"]

  /** "Cobalt Strike" in the dashboard's list can never fire: the labels are
      those of the list without it. */
  lemma CobaltStrikeNeverFires(text: string, similarityScore: real)
    ensures !Contains(Lower(text), "Cobalt Strike")
    ensures ClassifyUrgency(text, DashboardKeywords, similarityScore)
         == ClassifyUrgency(text, ["university", "student", "canvas"], similarityScore)
  {
    assert IsUpper(DashboardKeywords[3][0]);
    UppercaseKeywordIsInert(text, DashboardKeywords, similarityScore, 3, 0);
    assert DashboardKeywords[..3] + DashboardKeywords[4..] == ["university", "student", "canvas"];
  }

  /** A keyword written in lower case matches its word in any casing:
      the text around it does not matter. */
  lemma LowerKeywordMatchesAnyCase(before: string, word: string, after: string,
                                   keywords: seq<string>, similarityScore: real)
    requires Lower(word) in keywords
    ensures ClassifyUrgency(before + word + after, keywords, similarityScore) == Red
  {
    LowerConcat(before + word, after);
    LowerConcat(before, word);
    OccursBetween(Lower(before), Lower(word), Lower(after));
    ContainsIff(Lower(before + word + after), Lower(word));
  }

  /** The body of a plain-text outage notice. */
  const OutageBody: string := "The university " + "Canvas" + " system is down for all students."

  /** The outage notice is Red under the keyword "canvas", whatever its score. */
  lemma CanvasOutageIsRed(similarityScore: real)
    ensures ClassifyUrgency(OutageBody, ["canvas"], similarityScore) == Red
  {
    assert Lower("Canvas") == "canvas";
    LowerKeywordMatchesAnyCase("The university ", "Canvas", " system is down for all students.",
                               ["canvas"], similarityScore);
  }

  /** An empty body with non-empty keywords and score 0.0 is Yellow. */
  lemma EmptyBodyIsYellow(keywords: seq<string>)
    requires forall i :: 0 <= i < |keywords| ==> keywords[i] != ""
    ensures ClassifyUrgency("", keywords, 0.0) == Yellow
  {
    forall i | 0 <= i < |keywords| ensures !Contains(Lower(""), keywords[i]) {
      ContainsIff(Lower(""), keywords[i]);
    }
  }

  // ---------------------------------------------------------------------
  // Summary (summarize_email over an already split sentence list)
  // ---------------------------------------------------------------------

  const DefaultSentenceCount: int := 3

  /** Where Python's slice `xs[:n]` ends for a list of length `len`. */
  function SliceEnd(n: int, len: nat): (k: nat)
    ensures k <= len
  {
    if n >= 0 then (if n <= len then n else len)
    else if len + n >= 0 then len + n else 0
  }

  /** summarize_email: the first `sentenceCount` sentences joined by single
      spaces; the result always starts off the full joined text. */
  function SummarizeEmail(sentences: seq<string>, sentenceCount: int := DefaultSentenceCount): (r: string)
    ensures StartsWith(Join(" ", sentences), r)
  {
    var k := SliceEnd(sentenceCount, |sentences|);
    JoinPrefix(" ", sentences, k);
    Join(" ", sentences[..k])
  }

  /** A non-negative count takes the first min(count, |sentences|) sentences. */
  lemma SummaryTakesFirst(sentences: seq<string>, sentenceCount: nat)
    ensures sentenceCount <= |sentences| ==>
      SummarizeEmail(sentences, sentenceCount) == Join(" ", sentences[..sentenceCount])
    ensures sentenceCount >= |sentences| ==>
      SummarizeEmail(sentences, sentenceCount) == Join(" ", sentences)
  {
    assert sentences[..|sentences|] == sentences;
  }

  /** No sentences give the empty summary. */
  lemma SummaryOfNothing(sentenceCount: int)
    ensures SummarizeEmail([], sentenceCount) == ""
  {
  }

  /** With the default count, three or more sentences give the first three
      with one space between each. */
  lemma DefaultSummary(sentences: seq<string>)
    requires |sentences| >= 3
    ensures SummarizeEmail(sentences) == sentences[0] + " " + sentences[1] + " " + sentences[2]
  {
    var first := sentences[..3];
    assert SummarizeEmail(sentences) == Join(" ", first);
    assert first[1..] == [sentences[1], sentences[2]];
    assert first[1..][1..] == [sentences[2]];
    assert Join(" ", first[1..]) == sentences[1] + " " + sentences[2];
  }

  /** A negative count drops that many sentences from the end, as the
      slice does. */
  lemma SummaryNegativeCount(sentences: seq<string>, drop: nat)
    requires 0 < drop <= |sentences|
    ensures SummarizeEmail(sentences, -(drop as int)) == Join(" ", sentences[..|sentences| - drop])
  {
  }

  // ---------------------------------------------------------------------
  // Body extraction (extract_email_parts)
  // ---------------------------------------------------------------------

  datatype EmailParts = EmailParts(subject: Option<string>, sender: Option<string>, bodyText: string)

  predicate IsTextPart(p: Part) {
    p.contentType == "text/plain" || p.contentType == "text/html"
  }

  /** The text a text part contributes: plain content as is, HTML through
      the conversion to text. */
  function PartText(p: Part, htmlToText: string -> string): (t: string)
    requires IsTextPart(p)
    ensures p.contentType == "text/plain" ==> t == p.content
    ensures p.contentType == "text/html" ==> t == htmlToText(p.content)
  {
    if p.contentType == "text/plain" then p.content else htmlToText(p.content)
  }

  /** `body` is the text of the part at index `i` of the walk, a text part. */
  predicate TextOfPart(walk: seq<Part>, htmlToText: string -> string, i: int, body: string) {
    0 <= i < |walk| && IsTextPart(walk[i]) && body == PartText(walk[i], htmlToText)
  }

  /** The body the walk settles on before stripping: the first text part,
      whichever of the two kinds it is, or "" when there is none. */
  function FirstTextBody(walk: seq<Part>, htmlToText: string -> string): (body: string)
    ensures body == "" || exists i :: TextOfPart(walk, htmlToText, i, body)
  {
    if walk == [] then ""
    else if IsTextPart(walk[0]) then
      assert TextOfPart(walk, htmlToText, 0, PartText(walk[0], htmlToText));
      PartText(walk[0], htmlToText)
    else
      var rest := FirstTextBody(walk[1..], htmlToText);
      assert rest != "" ==> exists i :: TextOfPart(walk, htmlToText, i, rest) by {
        if rest != "" {
          var j :| TextOfPart(walk[1..], htmlToText, j, rest);
          assert walk[1..][j] == walk[j + 1];
          assert TextOfPart(walk, htmlToText, j + 1, rest);
        }
      }
      rest
  }

  /** The part at index `i` decides the body when no earlier part is text. */
  lemma {:induction false} FirstTextBodyAt(walk: seq<Part>, htmlToText: string -> string, i: nat)
    requires i < |walk| && IsTextPart(walk[i])
    requires forall j :: 0 <= j < i ==> !IsTextPart(walk[j])
    ensures FirstTextBody(walk, htmlToText) == PartText(walk[i], htmlToText)
  {
    if i > 0 {
      assert !IsTextPart(walk[0]);
      FirstTextBodyAt(walk[1..], htmlToText, i - 1);
    }
  }

  /** With no text part at all the body is empty. */
  lemma {:induction false} FirstTextBodyNone(walk: seq<Part>, htmlToText: string -> string)
    requires forall j :: 0 <= j < |walk| ==> !IsTextPart(walk[j])
    ensures FirstTextBody(walk, htmlToText) == ""
  {
    if walk != [] {
      assert !IsTextPart(walk[0]);
      FirstTextBodyNone(walk[1..], htmlToText);
    }
  }

  /** Plain text is not preferred: an HTML part walked before a plain part
      is the one used. */
  lemma HtmlBeforePlainWins(html: string, plain: string, htmlToText: string -> string)
    ensures FirstTextBody([Part("text/html", html, None, None, None),
                           Part("text/plain", plain, None, None, None)], htmlToText)
         == htmlToText(html)
  {
  }

  /** extract_email_parts: the headers pass through unchanged; a multipart
      message takes its body from the first text part of the walk, a
      single-part message from its own content; either way the body is
      stripped. */
  method ExtractEmailParts(msg: Message, htmlToText: string -> string) returns (parts: EmailParts)
    ensures parts.subject == msg.subject && parts.sender == msg.sender
    ensures parts.bodyText == Strip(if msg.isMultipart then FirstTextBody(msg.walk, htmlToText) else msg.content)
    ensures NoOuterSpace(parts.bodyText)
  {
    var body := "";
    if msg.isMultipart {
      var i := 0;
      while i < |msg.walk|
        invariant 0 <= i <= |msg.walk|
        invariant body == ""
        invariant FirstTextBody(msg.walk[i..], htmlToText) == FirstTextBody(msg.walk, htmlToText)
      {
        var part := msg.walk[i];
        var contentType := part.contentType;
        assert msg.walk[i..][0] == part;
        if contentType == "text/plain" {
          body := part.content;
          break;
        } else if contentType == "text/html" {
          var html := part.content;
          body := htmlToText(html);
          break;
        }
        assert msg.walk[i..][1..] == msg.walk[i + 1..];
        i := i + 1;
      }
    } else {
      body := msg.content;
    }
    parts := EmailParts(msg.subject, msg.sender, Strip(body));
  }
}
