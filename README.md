# Email threat triage: a Dafny model of its decision rules

The system reads `.eml` files, pulls out the body text, has NLP libraries
compute named entities, a similarity score and a sentence split, and then
labels each email Red, Orange or Yellow. A dashboard lists the labelled
emails, filters them and shows a risk gauge per email. The NLP, the MIME
parsing and HTML stripping all live in libraries. What the repository itself
decides is a small set of rules over strings and part lists. This project
models those rules and proves their properties:

- `Triage` (main.py) covers three rules. `classify_urgency`: a keyword
  substring test on the lower-cased text, then two strict thresholds on the
  score. `summarize_email`: the first N sentences joined by a single space,
  with Python's slice rules for N. `extract_email_parts`: the walk over the
  message parts, which stops at the first `text/plain` or `text/html` part,
  then strips the result.
- `Attachments` (the `EMLAttachmentAnalyzer` class of dashboard2.py) covers
  two tests that differ. The yes/no check, `check_message_for_attachments`
  and `has_attachments`, tests a case-sensitive prefix of the
  Content-Disposition header. The listing, `get_attachment_info`, tests for a
  substring of its lower-cased value, and names each unnamed entry
  `unnamed_k` from a running count.
- `Dashboard` (dashboard2.py) covers the per-label key figures, the
  priority-and-search filter, the CSS class and badge of each card, and the
  ten-dot risk gauge.
- `Text` models the Python `str` behaviour these rules use: `lower` on the
  ASCII letters, `in`, `startswith`, `strip` over `str.isspace`, `join`, and
  `str(n)`.
- `Mime` holds the abstract parsed message. `Sequences` defines
  order-preserving subsequences. `Wrappers` holds `Option`.

External behaviour enters as parameters. The HTML-to-text conversion is a
function argument `htmlToText`. The similarity score is a `real` argument.
The sentence split is an input sequence of sentences. A parsed message is
given by what its accessors return: header values, the multipart flag, its
own content, and the parts `walk()` yields, in order.

Two behaviours of the code are easy to misread. Plain text is not
preferred over HTML: the body is whichever of the two comes first in the
walk (lemma `HtmlBeforePlainWins`). Missing `subject` and `from` headers
stay `None`; they are not turned into empty strings.

## Model

| member | source | states |
|---|---|---|
| Text.Lower | main.py:60 | lower-casing keeps the length and leaves no upper-case letter |
| Text.Contains | main.py:61 | Python's `pat in s`; a pattern is only ever found in a text at least as long as itself |
| Text.ContainsIff | main.py:61 | Python's `pat in s` holds exactly when `pat` occurs at some index of `s` |
| Text.UpperNeverInLower | main.py:60-61 | a pattern with an upper-case letter never occurs in lower-cased text |
| Text.OccursAtLower | dashboard2.py:43 | an occurrence survives lower-casing both sides, at the same index |
| Text.TrimStart | main.py:43 | `lstrip`: the result is a suffix of the text, everything cut off in front is whitespace, and it does not start with whitespace |
| Text.TrimEnd | main.py:43 | `rstrip`: the result is a prefix of the text, everything cut off behind is whitespace, and it does not end with whitespace |
| Text.Strip | main.py:43 | the stripped body is the text at some offset with only whitespace before and after it (nothing else removed), has no whitespace at either end, and is empty exactly when the body is all whitespace |
| Text.StripIsSubstring | main.py:43 | the stripped body is a contiguous piece of the unstripped one |
| Text.StripIdempotent | main.py:43 | stripping a stripped body changes nothing |
| Text.Join | main.py:57 | `sep.join(xs)` starts with the first item |
| Text.JoinPrefix | main.py:57 | joining the first k sentences gives a prefix of joining all of them |
| Text.NatToString | dashboard2.py:49 | the counter renders as non-empty decimal digits with no leading zero |
| Text.NatToStringRoundTrip | dashboard2.py:49 | reading the digits back gives the counter value |
| Text.NatToStringInjective | dashboard2.py:49 | different counter values render differently |
| Triage.Label | main.py:59-68 | the result is always "Red", "Orange" or "Yellow" |
| Triage.LabelInjective | main.py:62-68 | different levels have different label strings |
| Triage.ClassifyUrgency | main.py:59-68 | Red iff a keyword hits the lower-cased text or the score is above 0.9; Orange iff no keyword hits and 0.6 < score <= 0.9; Yellow iff no keyword hits and score <= 0.6 |
| Triage.KeywordForcesRed | main.py:60-62 | a keyword found in the lower-cased text gives Red whatever the score |
| Triage.ThresholdsWithoutKeyword | main.py:63-68 | with no keyword found: Red iff score > 0.9, Orange iff 0.6 < score <= 0.9, Yellow iff score <= 0.6 |
| Triage.BoundaryScores | main.py:63-66 | with no keyword found, exactly 0.9 gives Orange and exactly 0.6 gives Yellow |
| Triage.ClassifyMonotone | main.py:59-68 | for fixed text and keywords a higher score never gives a lower level (Yellow < Orange < Red) |
| Triage.EmptyKeywordAlwaysRed | main.py:61 | an empty keyword matches every text, so every email is Red |
| Triage.UppercaseKeywordIsInert | main.py:60-61 | a keyword with an upper-case letter never matches, and removing it from the list changes no label |
| Triage.CobaltStrikeNeverFires | dashboard2.py:66 | the dashboard's list labels every email exactly as the list without "Cobalt Strike" does |
| Triage.LowerKeywordMatchesAnyCase | main.py:60-62 | a lower-case keyword matches its word in any casing, anywhere in the text, giving Red |
| Triage.CanvasOutageIsRed | main.py:59-62 | "The university Canvas system is down for all students." is Red under keyword "canvas" for any score |
| Triage.EmptyBodyIsYellow | main.py:59-68 | an empty body with score 0.0 and no empty keyword is Yellow |
| Triage.SliceEnd | main.py:57 | the slice `[:n]` never ends past the list |
| Triage.SummarizeEmail | main.py:55-57 | the summary is a prefix of all the sentences joined by single spaces |
| Triage.SummaryTakesFirst | main.py:56-57 | count N <= len gives the first N sentences joined with spaces; N >= len gives all of them joined |
| Triage.SummaryOfNothing | main.py:57 | an empty sentence list gives "" |
| Triage.DefaultSummary | main.py:55-57 | with the default count 3, the summary is s0 + " " + s1 + " " + s2 |
| Triage.SummaryNegativeCount | main.py:57 | a negative count drops that many sentences from the end |
| Triage.FirstTextBody | main.py:25-36 | the body the walk settles on is "" or the text of some text part of the walk |
| Triage.FirstTextBodyAt | main.py:28-36 | the first text/plain or text/html part of the walk gives the body; HTML goes through the text extraction |
| Triage.FirstTextBodyNone | main.py:25-36 | a walk without text parts gives the body "" |
| Triage.HtmlBeforePlainWins | main.py:28-36 | an HTML part walked before a plain part is the one used |
| Triage.ExtractEmailParts | main.py:22-44 | subject and sender pass through unchanged; the body is the stripped first text part (multipart) or the content itself (single part); it has no whitespace at either end |
| Attachments.FlaggedByCheck | dashboard2.py:32-33 | a part the yes/no check flags (disposition starting with "attachment" in that case, or a filename) is always a part the listing flags |
| Attachments.FlaggedByListing | dashboard2.py:43-44 | a part is flagged for the listing iff it has a filename or "attachment" occurs at some index of its lower-cased disposition |
| Attachments.AttachmentPrefixIsListed | dashboard2.py:32-43 | a disposition starting with "attachment" contains "attachment" once lower-cased |
| Attachments.ListingFlagsMoreThanCheck | dashboard2.py:32-44 | the converse fails: disposition "ATTACHMENT" without a filename is listed but not detected |
| Attachments.CheckMessageForAttachments | dashboard2.py:29-34 | False for a single-part message; otherwise True iff some part's disposition starts with "attachment" or some part has a non-empty filename |
| Attachments.HasAttachments | dashboard2.py:21-26 | the same answer as the check |
| Attachments.ListedParts | dashboard2.py:41-46 | the listed parts are never more than the walk's parts, and every one of them is flagged |
| Attachments.ListedPartsMembership | dashboard2.py:41-46 | a part is listed iff it is in the walk and its lower-cased disposition contains "attachment" or it has a filename |
| Attachments.ListedPartsInOrder | dashboard2.py:41-52 | the listing is an order-preserving subsequence of the walk |
| Attachments.ListedPartsNonEmpty | dashboard2.py:41-46 | one flagged part makes the listing non-empty |
| Attachments.Describe | dashboard2.py:47-51 | every entry has a non-empty name and type; a named part keeps its filename; an unnamed one is "unnamed_" followed by the decimal digits of its ordinal |
| Attachments.UnnamedNamesDiffer | dashboard2.py:49 | unnamed entries at different positions get different `unnamed_k` names |
| Attachments.GetAttachmentInfo | dashboard2.py:36-54 | nothing for a single-part message; otherwise one entry per listed part in walk order; the k-th has the part's filename or `unnamed_k`, its content type or "unknown", and its payload length or 0 |
| Attachments.CheckedMessageIsListed | dashboard2.py:30-46 | if the check says True, the listing is non-empty |
| Attachments.DashboardAttachments | dashboard2.py:68-73 | the flag is the check's answer; a flagged message gets the full listing, which is non-empty; an unflagged one gets []; the count is the list length |
| Dashboard.CountUrgency | dashboard2.py:185 | a label count never exceeds the number of emails, and is 0 when no email carries the label |
| Dashboard.ComputeKeyFigures | dashboard2.py:185 | the total is the number of emails, and the three label counts together never exceed it |
| Dashboard.KeyFiguresAddUp | dashboard2.py:185 | the Red, Orange and Yellow counts sum to at most the total, and to the total when every label is one of the three |
| Dashboard.ClassifiedKeyFiguresAddUp | dashboard2.py:185 | records labelled by classify_urgency make the three counts sum exactly to the total |
| Dashboard.MatchesSearch | dashboard2.py:206 | a record matches iff the search is empty or the lower-cased term occurs at some index of the lower-cased subject, sender or summary |
| Dashboard.FilterEmails | dashboard2.py:206-209 | the displayed count never exceeds the total, and every listed record matches the priority and the search |
| Dashboard.FilterMembership | dashboard2.py:206 | a record is listed iff it is an email that matches the priority and the search |
| Dashboard.FilterInOrder | dashboard2.py:206 | the listed records are an order-preserving subsequence of the emails |
| Dashboard.FilterOnlyThatLabel | dashboard2.py:206 | unless the filter is 'ALL', every listed record has the chosen urgency |
| Dashboard.FilterAllIsIdentity | dashboard2.py:206 | 'ALL' with an empty search lists the emails unchanged |
| Dashboard.FilterAgreesWithCount | dashboard2.py:185-206 | a label filter with no search lists as many records as that label's key figure |
| Dashboard.UrgencyClass | dashboard2.py:212 | the card class is critical, medium or low, and low for every label but Red and Orange |
| Dashboard.PriorityLabel | dashboard2.py:213 | the badge agrees with the card class: CRITICAL iff critical, MEDIUM iff medium, LOW or UNKNOWN iff low |
| Dashboard.PriorityLabelKnown | dashboard2.py:212-213 | the badge is UNKNOWN iff the label is not one of the three (those are styled "low"); a classified label always gets a real badge |
| Dashboard.RiskScore | dashboard2.py:214 | the risk score is at most 10, and is either 10 or similarity*10 plus the class bonus |
| Dashboard.TruncToInt | dashboard2.py:214-215 | `int()` truncates toward zero |
| Dashboard.RiskDots | dashboard2.py:215 | ten dots, each either the filled or the empty dot |
| Dashboard.RiskDotsShape | dashboard2.py:215 | exactly 10 dots; dot j is filled iff j < int(risk_score) and empty otherwise |
| Dashboard.RiskDotsHtml | dashboard2.py:215 | the gauge's HTML is all the filled dots first, then the empty ones: int(risk_score) clamped to 0..10 filled, the rest of the ten empty |
| Dashboard.DotsFilledCount | dashboard2.py:215 | the number of filled dots is int(risk_score) clamped to 0..10 |
| Dashboard.CardGaugeMatchesScore | dashboard2.py:214-224 | for non-negative similarity the filled dots equal the k in "k/10", and 0 <= k <= 10 |
| Dashboard.CriticalHighSimilarityFillsGauge | dashboard2.py:214-215 | a critical email with similarity >= 0.7 fills all ten dots |

## Left out

- Text.Lower: maps only the ASCII letters A-Z. Python's `str.lower` also maps non-ASCII letters; the model's text and keywords are treated as ASCII for case.
- MIME parsing (`parse_eml`, main.py:19-20) and content decoding are library behaviour. The message is given by what its accessors return. Content is modelled as text throughout. For a single-part message whose part is not text (an application/pdf, say), `msg.get_content()` returns bytes, and main.py:38 and 43 then keep a stripped `bytes` value as `body_text`. The model does not capture that case.
- BeautifulSoup's `get_text` (main.py:35) is library behaviour. It is the parameter `htmlToText`.
- Entity extraction and similarity (main.py:17, main.py:46-53) are spaCy, model-dependent and floating point. The score is a `real` parameter.
- Sentence splitting (`sent_tokenize`, main.py:56) is NLTK. The sentence list is an input.
- `generate_report` (main.py:70-87) writes a .docx file with the clock in its name. It is I/O.
- `get_emails` (dashboard2.py:56-80) globs a directory, sorts by file creation time, reads file stats and skips files that throw. It is I/O and clock. Its record-building defaults ("No Subject", "Unknown Sender") come with it. Three things from it are modelled: the keyword list it passes to classify_urgency at dashboard2.py:66 (`Triage.DashboardKeywords`, with `CobaltStrikeNeverFires`), and its attachment lines 68-69 and 73 (`DashboardAttachments`).
- `format_file_size` (dashboard2.py:82-89) divides floats and formats them. It is floating point and formatting.
- Attachments.HasAttachments: the `except Exception: return False` fallback (dashboard2.py:23-26) is not modelled, because the modelled check cannot raise.
- Attachments.GetAttachmentInfo: the `except Exception: pass` (dashboard2.py:53) is not modelled, for the same reason.
- Dashboard.RiskScore: the similarity is an exact real. The float rounding of `similarity * 10` is not modelled.
- The Streamlit page is presentation: page config, CSS, session-state page switching, buttons, HTML escaping of card text, the first-five entity tags (dashboard2.py:216) and `components.html`. dashboard.py is part of it too.
- The security chatbot (`ask_sec_chatbot`) is imported from main_copy, which is not part of this model.
- dashboard2.py:7-11 imports `parse_eml`, `extract_email_parts`, `summarize_email` and `classify_urgency` from main_copy too, and main_copy is not part of this model. Every claim about the dashboard's records (the classification behind `CobaltStrikeNeverFires` and `ClassifiedKeyFiguresAddUp`, the body and summary the filter searches) uses main.py's definitions of those four functions, which dashboard.py:4 imports.
