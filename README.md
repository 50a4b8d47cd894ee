# Startup summaries: a Dafny model of the summarisation pipeline

The pipeline reads a table of crawled web pages, one row per URL, and prepares it.
It derives each row's company (the second-level domain), its language, whether the text is an error page, whether the URL is a base URL, and its slash count.
It then cleans up the whitespace and the letter case of the text and keeps the English rows without an error marker.
For each of the first companies and each investor-interest topic, it does the following:

- It takes the company's pages with the fewest slashes in their URL.
- It cuts each page into chunks and asks a hosted language model for one extraction per chunk, then for one reduction of those answers.
- It reduces the page summaries once more into one cell of a (company, topic) table.

The model covers this deterministic logic around the language model:

- `Prompt` (`prompt.dfy`): the two prompt templates as string concatenations. Lemmas prove their instruction frame, their exact length, where the text sits, and that each template is injective in the text.
- `LanguageModel` (`language_model.dfy`): the model as an object.
  - `complete` is the answer to a prompt. It is a fixed function, so the service is a deterministic oracle.
  - Every generation request is appended to a ghost `log`, so the methods can state how many requests they make, in what order, and with which arguments.
- `SingleDocument` (`summarise_single_document.dfy`):
  - the chunk loop as a method with a loop invariant;
  - the single reduction request;
  - the whole two-level summarisation of one document.
- `SingleCompany` (`summarise_single_company.dfy`):
  - the sort by slash count and `head`;
  - the per-page summaries, with the selection and call-count properties.
- `App` (`app.dfy`): `summarise_companies`, the nested company × topic loops filling the result table. The table is a `map` from (company, topic) to text.
- `Preprocess` (`preprocess.dfy`): `word_count`, `counter_slashes`, `is_base_url`, `to_sentence_case`, the whitespace clean-up, the row filter and `preprocess_and_load_data` on a sequence of rows.
- `Errors` (`errors.dfy`):
  - `detect_error` as an explicit matcher for `Error:|Timeout \d+ms exceeded|Target closed`;
  - a literal reading of the regular expression;
  - a proof that the two agree.
- `Text` (`text.dfy`): Python's `str.split()`, `split(sep)`, `join`, `strip`, `capitalize` and `count` on ASCII strings, with the facts the other modules use.

Some functions are definitions only and have no row below; the lemmas about them carry the properties:

- `SingleCompany.Head`: pandas `head(n)`, including a negative `n`. `SortedHeadSelection` and `TopArticlesShape` prove its properties.
- `App.Domains`: the `second_level_domain` column. `SubsampledShape` and `CompanyRowsCount` prove its properties.
- `Preprocess.IsBaseUrl`: `is_base_url` over an abstract `urlparse`. Its column feeds nothing downstream.

Three behaviours of the code are worth pointing out:

- **Empty reduction.** `summarise_summaries` does not reject an empty list: it sends one request whose prompt frames the empty text (`SingleDocument.EmptyReduction`). A direct call of `summarise_top_articles` on an empty frame returns no summaries, so reducing its result still costs one request. Inside `summarise_companies` this does not happen: every company processed has at least one page (`App.CellArticlesShape`).
- **Number of companies.** `app.py:38` slices `companies[0:SUBSAMPLE_COMPANIES + 1]`, so up to four companies are summarised with `SUBSAMPLE_COMPANIES = 3`. The model keeps the slice as written (`App.SubsampledShape`, `App.LaterCompaniesSkipped`).
- **Sort ties.** `sort_values` with its default algorithm promises no order among equal slash counts. The model fixes one order (`SingleCompany.SortBySlashCount`). `SingleCompany.SortedHeadSelection` proves the length, order and selection properties for the head of any ordering by slash count, so they do not depend on that choice.

## Model

| member | source | states |
|---|---|---|
| Prompt.ExtractionHeadShape | src/prompt.py:13-17 | what precedes the text has length 515 + \|topic\|, opens with `[INST]\n` and ends with `:\n\n` |
| Prompt.ExtractionTailShape | src/prompt.py:18-22 | what follows the text has length 356 + 3·\|topic\|, starts with `\n\nNote: ` and ends with `[/INST]` |
| Prompt.ExtractionPromptFrame | src/prompt.py:12-23 | the extraction prompt starts with `[INST]\n`, ends with `[/INST]` and has length 871 + \|text\| + 4·\|topic\| (the topic is interpolated four times) |
| Prompt.ExtractionPromptText | src/prompt.py:17-19 | the text sits verbatim at offset 515 + \|topic\|, right after `:\n\n` and right before `\n\nNote: ` |
| Prompt.ExtractionPromptInjective | src/prompt.py:12-23 | for a fixed topic, equal extraction prompts come from equal texts |
| Prompt.SummaryHeadShape | src/prompt.py:38-41 | what precedes the text in the summary prompt has length 368 + \|topic\| and opens with `[INST]\n` |
| Prompt.SummaryPromptFrame | src/prompt.py:37-45 | the summary prompt starts with `[INST]\n`, ends with `\nCONCISE summary:\n\n[/INST]` and has length 394 + \|text\| + \|topic\| |
| Prompt.SummaryPromptText | src/prompt.py:41-42 | the text sits verbatim right after the topic line's line feed |
| Prompt.SummaryPromptInjective | src/prompt.py:37-45 | for a fixed topic, equal summary prompts come from equal texts |
| LanguageModel.Model.Generate | src/summarise_single_document.py:67 | the answer is `complete(prompt)`, and exactly this request, with its two generation arguments, is appended to the log |
| LanguageModel.Model.GetNumTokens | src/summarise_single_document.py:25-36 | the count is `numTokens(text)` and no generation request is made |
| SingleDocument.ChunkSummaries | src/summarise_single_document.py:64-69 | one answer per chunk, the i-th being the model's answer to the extraction prompt of chunk i |
| SingleDocument.ChunkCalls | src/summarise_single_document.py:64-69 | one request per chunk, the i-th being the extraction request for chunk i |
| SingleDocument.SummariseChunks | src/summarise_single_document.py:52-69 | returns the per-chunk answers in chunk order and appends exactly the per-chunk extraction requests to the log |
| SingleDocument.SummariseSummaries | src/summarise_single_document.py:71-86 | exactly one request, whose prompt frames the summaries joined by line feeds; returns its answer |
| SingleDocument.EmptyReduction | src/summarise_single_document.py:83-85 | an empty list is not rejected: the reduction prompt frames the empty text and has length 394 + \|topic\| |
| SingleDocument.ReductionRecoversSummaries | src/summarise_single_document.py:83-84 | when no summary holds a line feed, splitting the prompt's text part on line feeds gives the summaries back |
| SingleDocument.DocumentCallsShape | src/summarise_single_document.py:19-23 | a document cut into k chunks costs k extraction requests, one per chunk in order, then one reduction over their answers |
| SingleDocument.DocumentCallsArguments | src/summarise_single_document.py:64-86 | every request of a document passes `max_new_tokens = 2048` and `repetition_penalty = 1.2` |
| SingleDocument.SummariseSingleDocument | src/summarise_single_document.py:6-23 | returns the reduction of the chunk answers and logs exactly the document's requests; neither depends on the token count it asks for |
| SingleCompany.SortBySlashCount | src/summarise_single_company.py:16 | the result is in non-decreasing slash count and is a permutation of the rows |
| SingleCompany.TopArticlesShape | src/summarise_single_company.py:16 | for top_n ≥ 0, exactly min(#rows, top_n) rows, drawn from the company's rows, in non-decreasing slash count |
| SingleCompany.TopArticlesSelection | src/summarise_single_company.py:16 | no selected row has a larger slash count than any row left out |
| SingleCompany.SortedHeadSelection | src/summarise_single_company.py:16 | for any ordering of the rows by slash count (ordered and a permutation), its head has min(#rows, n) rows for n ≥ 0, drawn from the rows, in order, and no row left out has a smaller slash count than a row taken |
| SingleCompany.ArticleSummaries | src/summarise_single_company.py:18-26 | one summary per selected page, in order, each the document summary of that page's text with the caller's token limit and topic |
| SingleCompany.ArticleCallsCount | src/summarise_single_company.py:18-26 | the pages cost, in total, the sum over selected pages of their chunk count plus one |
| SingleCompany.NoRowsNoCalls | src/summarise_single_company.py:16-28 | a company with no rows gets no summaries and costs no request |
| SingleCompany.SummariseTopArticles | src/summarise_single_company.py:3-28 | returns the per-page summaries of the selected pages and logs exactly their requests, page after page |
| App.Unique | app.py:36 | `unique()`: no value twice, and exactly the values of the column |
| App.UniqueOrder | app.py:36 | the distinct values appear in order of first appearance |
| App.SubsampledShape | app.py:36-38 | the companies processed are the first min(4, #companies) distinct domains, none twice, each the domain of some row |
| App.LaterCompaniesSkipped | app.py:38 | a distinct domain at index 4 or later is not processed |
| App.CompanyRowsCount | app.py:42 | the rows passed for a company are exactly its rows, each as often as it occurs |
| App.CellArticlesShape | app.py:42-43 | a processed company has between one and five selected pages, all rows of that company |
| App.CellCallsShape | app.py:43-44 | one cell costs the pages' requests plus exactly one company-level reduction, which comes last |
| App.NoTopicsNoCalls | app.py:40 | without topics no request is made |
| App.SummariseCell | app.py:42-44 | the cell's value is the reduction of the company's page summaries, and the log grows by exactly that cell's requests |
| App.SummariseCompanies | app.py:34-45 | a cell is set exactly for each processed company and listed topic, holding that pair's summary (a repeated topic writes the same cell); the log is every cell's requests, company after company and topic after topic |
| Preprocess.WordCountEmpty | src/preprocess.py:10-12 | no texts, no words |
| Preprocess.WordCountSingle | src/preprocess.py:10-12 | one text counts the words `split()` finds in it |
| Preprocess.WordCountAppend | src/preprocess.py:10-12 | the joining blank keeps texts apart, so word counts add up over concatenation |
| Preprocess.CounterSlashes | src/preprocess.py:41-43 | the number of `/` in the URL, at most its length |
| Preprocess.CounterSlashesAppend | src/preprocess.py:41-43 | slash counts add up over concatenation |
| Preprocess.SentenceCaseChars | src/preprocess.py:32-34 | same length; the first character and every character right after `. ` in upper case, every other in lower case |
| Preprocess.SentenceCaseSeparators | src/preprocess.py:34 | every `. ` separator stays where it was and none appears |
| Preprocess.SentenceCaseIdempotent | src/preprocess.py:34 | applying sentence case twice changes nothing more |
| Preprocess.CollapseShape | src/preprocess.py:59 | after the regex replacement every whitespace character is a blank and no two are adjacent |
| Preprocess.CollapseIdentity | src/preprocess.py:59 | collapsed text is left alone by the replacement |
| Preprocess.CollapseWords | src/preprocess.py:59 | the replacement changes no word |
| Preprocess.StripNormalises | src/preprocess.py:59 | stripping collapsed text leaves it collapsed, with no whitespace at either end |
| Preprocess.NormaliseTextNormalised | src/preprocess.py:59 | after line 59 the text has single blanks as its only whitespace and none at either end |
| Preprocess.NormaliseTextIdentity | src/preprocess.py:59 | already clean text is left as it is |
| Preprocess.NormaliseTextIdempotent | src/preprocess.py:59 | the clean-up is idempotent |
| Preprocess.NormaliseTextWords | src/preprocess.py:59 | the clean-up changes no word of the text |
| Preprocess.SentenceCaseKeepsNormalised | src/preprocess.py:59-60 | sentence case keeps clean text clean |
| Preprocess.SentenceCaseWordCount | src/preprocess.py:60 | sentence case keeps the word count |
| Preprocess.FilterRowsCount | src/preprocess.py:62 | the filter keeps every English row without an error marker, as often as it occurs, and no other row |
| Preprocess.FilterRowsMembers | src/preprocess.py:62 | a row survives the filter exactly when it is an input row that is English and has no error marker |
| Preprocess.FilterRowsAppend | src/preprocess.py:62 | the filter keeps the order: it distributes over concatenation |
| Preprocess.Prepare | src/preprocess.py:54-60 | a prepared row keeps its URL, has clean text with as many words as the input text, and is kept exactly when the input text is English and has no error marker |
| Preprocess.PreprocessAndLoadData | src/preprocess.py:49-67 | the result is the filter applied to the rows prepared column by column |
| Errors.DigitRunEnd | src/errors.py:17 | the end of the maximal run of digits starting at a position |
| Errors.SearchFrom | src/errors.py:21-23 | `re.search` from a position: true exactly when an alternative matches at or after it |
| Errors.DetectError | src/errors.py:4-23 | true exactly when one of the three alternatives matches somewhere in the message |
| Errors.AlternativeIsIndicator | src/errors.py:17 | at a position, reading `\d+` as any positive number of digits agrees with matching the whole digit run |
| Errors.DetectErrorMatchesPattern | src/errors.py:15-23 | the matcher agrees with the literal reading of the regular expression, in both directions |
| Errors.ErrorMarkerDetected | src/errors.py:16-23 | a message containing `Error:` is an error |
| Errors.TargetClosedDetected | src/errors.py:18-23 | a message containing `Target closed` is an error |
| Errors.TimeoutDetected | src/errors.py:17-23 | `Timeout `, one or more digits and `ms exceeded` anywhere makes the message an error |
| Errors.TimeoutWithoutDigitsNotDetected | src/errors.py:17 | `Timeout ms exceeded` (no digits) is not an error |
| Errors.IndicatorInitial | src/errors.py:15-19 | every match starts with a capital `E` or `T` |
| Errors.NoInitialNoError | src/errors.py:21-23 | matching is case-sensitive: a message without capital `E` or `T` is never an error |
| Errors.LowerCaseErrorNotDetected | src/errors.py:16-23 | `error:` and the empty message are not errors |
| Errors.DetectErrorExtend | src/errors.py:22-23 | search semantics: a message that is an error stays one inside any longer text |
| Text.SplitJoin | src/summarise_single_document.py:83 | splitting a non-empty list joined by a character that none of its items holds gives the list back |
| Text.JoinSplit | src/preprocess.py:34 | the `split(sep)` model loses nothing: joining its pieces with the same separator gives the string back |
| Text.SplitPiecesFree | src/preprocess.py:34 | no piece of the `split(sep)` model contains the separator |
| Text.WordsShape | src/preprocess.py:12 | every word of the `split()` model is non-empty and holds no whitespace |

## Left out

- The text splitter (`CharacterTextSplitter.create_documents`, src/summarise_single_document.py:49-50) is a foreign library. It becomes the function parameter `Chunker`, and each chunk stands for the text the prompt interpolates for it. Nothing is claimed about chunk sizes or content.
- The language-model service (`HuggingFaceHub`) is an oracle. Sampling, `MODEL_KWARGS`, the network and the API token check of `load_model` are left out. `repetition_penalty` is the real number 1.2 rather than a float.
- LanguageModel.Model.Generate: every request is taken to succeed. In the source nothing catches an exception from `llm(...)`, so a service error ends `summarise_companies` with no table and no further requests. That failure path is not modelled.
- `is_english` (language detection), `tldextract` and `urllib.parse.urlparse` are foreign. They are fields of `Preprocess.Helpers` that the model takes as parameters.
- Unicode is left out. Case mapping, `isspace`, `\s` and `\d` are modelled on ASCII only (whitespace is the set Python's `str.isspace` gives on ASCII).
- Missing (NaN) cells are left out, and so are the DataFrame index and the column order. Rows are a sequence of records and the result table is a map from (company, topic) to text.
- SingleCompany.SortBySlashCount: fixes one order among equal slash counts, where `sort_values` with its default algorithm promises none. `SingleCompany.SortedHeadSelection` proves the selection properties for any such order. The exact pages and summaries the methods promise are those of the fixed order.
- `load_data`, the CSV output, the `print` logging and `log_text_length_for_each_domain` are I/O or logging only. The same goes for `read_investor_interest_topics`, the `main` functions and `load_model`.
- `token_calculation` is modelled only as the `GetNumTokens` call whose result nobody reads. The model states that the summaries and the requests do not depend on it.
