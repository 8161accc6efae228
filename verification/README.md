# Zomatofeeds feedback core in Dafny

Zomatofeeds is a one-page food-review app. A visitor picks a product from a
fixed menu of four, gives it 1 to 5 stars and writes a review. The page
checks the e-mail address and rejects a second review of the same product
from the same address. It also rejects a review that is only whitespace.
An accepted review is classified Positive, Negative or Neutral by counting
fixed keywords. Its rating is then added to the product's running total.
Each menu card shows the product's mean rating.

This project models that core and proves properties about it.

- `Options` (`options.dfy`) holds the optional value shared by the e-mail splitter and the session store.
- `Chars` (`chars.dfy`) holds the ASCII slice of Python's `str` behaviour that the core uses. `\w` is `[A-Za-z0-9_]`. Whitespace (`\s`, `str.isspace`) is code points 9..13 and 28..32. `str.lower` folds `A`..`Z`. `str.strip` is also here.
- `EmailValidation` (`email.dfy`) covers `valid_email`. `PatternAccepts` is a declarative reading of the regular expression `^[a-zA-Z0-9._%+-]+@[a-zA-Z0-9.-]+\.[a-zA-Z]{2,}$` under `re.match`. It includes Python's rule that `$` also matches just before one final `\n`. `ValidEmail` is the executable check: it splits the address at the first `@` and the last `.` after it. It is proved equivalent to `PatternAccepts`.
- `Sentiment` (`sentiment.dfy`) covers `analyze_sentiment`. The text is lower-cased and every character that is neither a word character nor whitespace is deleted. `FindAllCount` then counts `re.findall(r"\bkw\b")` as the regex engine scans: leftmost match first, without overlaps. It is proved to equal the number of word tokens that are `kw`. `FindAllSentiment` is the classifier step by step as the source computes it. `AnalyzeSentiment`, the reading the rest of the model uses, counts keyword tokens instead. The two are proved equal. The labels and colours are the source's exact strings.
- `Feedback` (`feedback.dfy`) covers `init_session`, `calculate_average` and the "Submit Review" branch of `feedback_section`. A session is an immutable value. A button press is the pure transition `Submit(session, email, product, rating, review, stamp)`, which returns the outcome and the next session. `Run` folds a sequence of presses. The session invariant `Consistent` holds in every session reachable from a fresh one.

## Model

| member | source | states |
|---|---|---|
| Chars.Lower | main.py:109 | `text.lower()` keeps the length, leaves no upper-case letter, maps each `A`..`Z` to the letter 32 code points later and keeps every other character |
| Chars.LowerIdempotent | main.py:109 | lower-casing an already lower-cased string changes nothing |
| Chars.TrimStart | main.py:163 | the leading part `strip` removes is all whitespace, and the rest is empty or starts with a non-space |
| Chars.TrimEnd | main.py:163 | the trailing part `strip` removes is all whitespace, and the rest is empty or ends with a non-space |
| Chars.Strip | main.py:163 | `review.strip()` is a slice of the review with only whitespace before and after it, and it neither starts nor ends with whitespace |
| Chars.StripEmptyIffBlank | main.py:163 | `review.strip() == ""` holds exactly when every character of the review is whitespace |
| EmailValidation.PatternAccepts | main.py:98 | a string the pattern accepts has at least six characters, starts with a character of the local-part class and contains an `@` |
| EmailValidation.WholeMatchShape | main.py:98 | a full match has at least six characters, starts with a local-part character and contains an `@` |
| EmailValidation.Body | main.py:98 | the part `$` must end at is the address minus at most one final `\n` |
| EmailValidation.FirstIndex | main.py:98 | finds the first position of a character, or reports that it is absent |
| EmailValidation.LastIndex | main.py:98 | finds the last position of a character, or reports that it is absent |
| EmailValidation.Decompose | main.py:98 | splits at the first `@` and the last `.` after it; the split fails exactly when there is no `@` or no `.` after the first one; the parts reassemble to the input, the local part has no `@` and the last part has no `.` |
| EmailValidation.ValidEmail | main.py:97-99 | accepts exactly the strings the pattern matches from the start to the end, or to just before one final `\n` |
| EmailValidation.DecomposeDecides | main.py:98 | the pattern's split exists exactly when the first-`@`/last-`.` split has parts of the right classes and sizes |
| EmailValidation.FirstIndexUnique | main.py:98 | a character that occurs only once is found at that position |
| EmailValidation.LastIndexUnique | main.py:98 | a position with no later occurrence of the character is the last one |
| EmailValidation.ValidEmailOneAt | main.py:98 | an accepted address contains exactly one `@` |
| EmailValidation.WholeMatchEndsInLetter | main.py:98 | a full match ends with a letter of the top-level domain |
| EmailValidation.ValidEmailTld | main.py:98 | in an accepted address the last `.` comes after the `@` with at least one character between them, and it is followed by at least two letters and nothing else |
| EmailValidation.PatternAcceptsExamples | main.py:98 | the pattern matches `jo.doe+1@mail.example.com`, and `a@b.co` followed by one `\n` |
| EmailValidation.ValidEmailAcceptsExamples | main.py:97-99 | the check accepts those two addresses |
| EmailValidation.ValidEmailRejectsMissingParts | main.py:97-99 | the check rejects an empty local part, an empty domain, a missing dot and a one-letter top-level domain |
| EmailValidation.ValidEmailRejectsSecondNewline | main.py:97-99 | only one final `\n` is tolerated |
| EmailValidation.ValidEmailRejectsSecondAt | main.py:97-99 | an address with two `@` is rejected |
| EmailValidation.ValidEmailRejectsDigitInTld | main.py:97-99 | a digit in the top-level domain is rejected |
| Sentiment.Clean | main.py:109 | `re.sub(r"[^\w\s]", "", ...)` leaves only word and whitespace characters, each taken from the input, and changes nothing in text made only of those |
| Sentiment.CleanChar | main.py:109 | one character is kept exactly when it is a word or whitespace character; with `CleanAppend` this fixes the result on every text |
| Sentiment.CleanAppend | main.py:109 | the deletion works character by character, so it distributes over concatenation |
| Sentiment.Normalize | main.py:109 | the text the patterns run on is no longer than the review, has no upper-case letter and only word and whitespace characters, and is the lower-cased review when the review has no other characters |
| Sentiment.Tokens | main.py:114-115 | the tokens between which `\b` sits are runs of word characters; there are none exactly when the text has no word character, and a text that starts with a word character has its whole leading run as first token |
| Sentiment.FindAllCount | main.py:114-115 | `re.findall` matches do not overlap, so the count times the keyword's length is at most the text's length; a text without word characters has no match |
| Sentiment.FindAllCountsTokens | main.py:114-115 | `len(re.findall(rf"\b{kw}\b", text))` is the number of tokens equal to `kw` |
| Sentiment.SkipRun | main.py:114-115 | no `\b`-anchored match starts inside a run of word characters |
| Sentiment.TokenMatch | main.py:114-115 | a boundary-delimited match at the start of a token is that whole token |
| Sentiment.KeywordHits | main.py:114-115 | summing the matches over a list of distinct keywords counts the tokens that are keywords |
| Sentiment.KeywordListsWellFormed | main.py:111-112 | both keyword lists consist of distinct words |
| Sentiment.KeywordsLowerCase | main.py:111-112 | every keyword is made of the letters `a`..`z` only, so lower-casing leaves it unchanged |
| Sentiment.Verdict | main.py:117-122 | Positive exactly when the positive count is larger, Negative exactly when the negative count is larger, Neutral exactly on a tie |
| Sentiment.AnalyzeSentiment | main.py:108-122 | the review is Positive exactly when it has more positive than negative keyword tokens, Negative exactly when it has more negative ones, Neutral exactly on a tie |
| Sentiment.FindAllSentiment | main.py:108-122 | the source's computation (sums of `re.findall` counts, then the three-way comparison) gives the same verdict as `AnalyzeSentiment` on every text |
| Sentiment.AnalyzeSentimentIgnoresCase | main.py:109 | two reviews that differ only in letter case get the same verdict |
| Sentiment.TokensUnwords | main.py:114-115 | tokenising words joined by single spaces gives back the words |
| Sentiment.NormalizeUnwords | main.py:109 | normalising words joined by spaces lower-cases each word and keeps the spaces |
| Sentiment.SentenceTokens | main.py:109-115 | the tokens of such a sentence are its lower-cased words |
| Sentiment.SentenceCounts | main.py:109-115 | the keyword counts of such a sentence are the counts of its lower-cased words in the lists |
| Sentiment.LongerWordIsNoHit | main.py:114-115 | a keyword followed directly by more word characters does not match, so "loved" is no hit for "love" |
| Sentiment.PunctuationJoinsWords | main.py:109 | a punctuation mark between two words is deleted, so the words become one token |
| Sentiment.AnalyzeSentimentExamples | main.py:108-122 | "Tasty and good" is Positive, "worst cold bitter" is Negative and "I loved it" is Neutral |
| Sentiment.AnalyzeSentimentDeletesPunctuation | main.py:109-122 | "good.bad" is Neutral, because its only token is "goodbad" |
| Feedback.InitSession | main.py:56-90 | a missing `db` becomes empty and a missing catalogue becomes the four products with zero totals; whatever is already stored is kept |
| Feedback.DefaultCatalogue | main.py:61-90 | each of the four fresh entries has zero totals and the source's type, price, veg label and ingredient list |
| Feedback.InitSessionKeepsState | main.py:56-90 | starting the page again on a complete session changes nothing |
| Feedback.CalculateAverage | main.py:102-105 | 0 when the count is 0; otherwise total divided by count |
| Feedback.HasReviewed | main.py:159-160 | the `any(...)` scan is true exactly when some stored review has the same address and product |
| Feedback.NewReview | main.py:167-180 | the appended record holds the submitted fields and the sentiment verdict of the review |
| Feedback.Accept | main.py:166-180 | the product's total grows by the rating and its count by one, its description is kept, other products are untouched, and exactly one record is appended |
| Feedback.Submit | main.py:154-180 | the outcome is decided in order: invalid address, then an earlier review of the same pair, then a blank review, otherwise accepted; a rejection leaves the session unchanged; the catalogue keeps its products |
| Feedback.AcceptKeepsTotals | main.py:169-170 | after an accepted review each total and count still equal the sum and number of stored ratings |
| Feedback.AcceptKeepsUnique | main.py:159-161 | accepting a pair that was not yet stored keeps the (email, product) pairs unique |
| Feedback.SubmitPreservesConsistency | main.py:154-180 | with a rating from the 1..5 slider, any button press keeps the session invariant |
| Feedback.RatingBounds | main.py:169-170 | with ratings in 1..5 a product's total lies between its count and five times its count |
| Feedback.AverageBounds | main.py:102-105 | such a total over a positive count gives a mean between 1 and 5 |
| Feedback.AverageWithinStars | main.py:136 | every reviewed product's card shows a mean between 1 and 5 |
| Feedback.ResubmissionRejected | main.py:159-161 | an accepted review is stored as the newest record, and the next submission for the same address and product is rejected as a duplicate and changes nothing |
| Feedback.LaterDuplicateRejected | main.py:159-161 | once a pair is stored, it stays stored through any further presses, so every later submission for it is rejected as a duplicate and changes nothing |
| Feedback.DuplicateRejected | main.py:157-161 | a valid address whose pair with the product is already in the log gets the duplicate warning, and the session stays as it was |
| Feedback.Run | main.py:154-180 | a sequence of presses keeps the catalogue's products and every stored record, and appends at most one record per press |
| Feedback.SubmitKeepsLog | main.py:154-180 | one press keeps every stored record in place and appends at most one |
| Feedback.RunPreservesConsistency | main.py:154-180 | the invariant survives any sequence of slider-rated presses |
| Feedback.InitConsistent | main.py:56-90 | a fresh session satisfies the invariant |
| Feedback.ReachableSessionsConsistent | main.py:154-180 | every session reachable from a fresh start is consistent, and each product's total lies between its count and five times it |

## Left out

- Page layout, CSS, the sidebar analytics, the pandas/plotly charts and the review list are presentation only. The same goes for the `st.error`, `st.warning` and `st.success` messages, `time.sleep` and `st.rerun`.
- The menu card's HTML and the iteration order of the product dictionary are not modelled. Only the mean the card shows is modelled, as `Feedback.AverageWithinStars`.
- `time.time()` becomes the caller-supplied `stamp`, which is stored unchanged.
- The widgets are not modelled. The selectbox can only return a catalogue key, so `Feedback.Submit` requires `product in s.products`. The slider only returns 1..5, so the invariant lemmas require ratings in that range. `Submit` itself accepts any rating, as the source does.
- Feedback.CalculateAverage: the source rounds to one decimal with `round(..., 1)` on a binary float. The model returns the exact rational quotient, and for a zero count it returns `0.0` where Python returns the integer `0`.
- Characters outside ASCII are not modelled. In the model they are neither word characters nor whitespace, so `Clean` deletes them. Python's `\w`, `\s`, `str.lower` and `str.strip` are Unicode-aware, so the model differs on non-ASCII text.
- The sentiment examples are written as words joined by single spaces (`Sentiment.Unwords`). This keeps the proofs about literal text small. `AnalyzeSentimentDeletesPunctuation` covers a literal with punctuation.
- Python's `any(r for r in db if ...)` tests the truth of the matching record dicts. Those dicts are never empty, so it is modelled as existence of a match (`Feedback.HasReviewed`).
