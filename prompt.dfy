/** The two prompt templates (src/prompt.py): both wrap their text in a fixed
    `[INST] ... [/INST]` instruction frame and interpolate the topic. */
module Prompt {
  import opened Text

  const INST_OPEN: string := "[INST]\n"
  const INST_CLOSE: string := "[/INST]"

  // Fixed parts of the extraction prompt, in the order they appear.
  const EXTRACTION_ROLE: string :=
    "You are an AI designed to extract and summarize the purpose of a company from web page content. When presented with HTML content, your task is to analyze the text, "
    + "images, and other data to identify and articulate the company's purpose. This may include the company's goals, product details, services, size, or any other business-related "
    + "aspect that defines its mission and objectives.\n\n"
  const EXTRACTION_ASK: string := "Please review the provided HTML text, but do not visit any links, and summarize the "
  const EXTRACTION_CONSIDERING: string := ", considering the content provided"
  const TEXT_OPEN: string := ":\n\n"
  const TEXT_CLOSE: string := "\n\n"
  const NOTE_LEAD: string := "Note: "
  const EXTRACTION_NOTE: string :=
    "If the HTML content consists solely of error messages, system-generated responses, terms of service pages, disclaimers, or other automated content that does not provide "
    + "specific information about the "
  const EXTRACTION_INDICATE: string := ", indicate that the "
  const EXTRACTION_UNDETERMINED: string :=
    " could not be determined from the provided content.\n\n"
    + "Based on the content provided, summarize the "
  const EXTRACTION_CLOSING: string := " in a brief paragraph.\n"

  // Fixed parts of the summary (reduction) prompt.
  const SUMMARY_ROLE: string :=
    "You are an AI designed to extract and summarize the purpose of a company from web page content. If you are not confident there is sufficient content in the summaries, e.g., "
    + "it appears to be HTML noise for unrelated pages, say that.\n\n"
  const SUMMARY_ASK: string :=
    "Please review the following summaries of web pages, and provide a single summary containing key information, and summarize the "
  const SUMMARY_SUFFIX: string := "\nCONCISE summary:\n\n" + INST_CLOSE

  /** What the extraction prompt puts before the text, and after it: both depend on
      the topic only. */
  function ExtractionHead(topic: string): string
  {
    INST_OPEN + (EXTRACTION_ROLE + EXTRACTION_ASK + topic + EXTRACTION_CONSIDERING) + TEXT_OPEN
  }

  function ExtractionTail(topic: string): string
  {
    (TEXT_CLOSE + NOTE_LEAD)
    + (EXTRACTION_NOTE + topic + EXTRACTION_INDICATE + topic + EXTRACTION_UNDETERMINED + topic + EXTRACTION_CLOSING)
    + INST_CLOSE
  }

  lemma ExtractionHeadShape(topic: string)
    ensures |ExtractionHead(topic)| == 515 + |topic|
    ensures StartsWith(ExtractionHead(topic), INST_OPEN)
    ensures EndsWith(ExtractionHead(topic), TEXT_OPEN)
  {
    StartsWithAppend(INST_OPEN + (EXTRACTION_ROLE + EXTRACTION_ASK + topic + EXTRACTION_CONSIDERING), TEXT_OPEN, INST_OPEN);
  }

  lemma ExtractionTailShape(topic: string)
    ensures |ExtractionTail(topic)| == 356 + 3 * |topic|
    ensures StartsWith(ExtractionTail(topic), TEXT_CLOSE + NOTE_LEAD)
    ensures EndsWith(ExtractionTail(topic), INST_CLOSE)
  {
    var lead := TEXT_CLOSE + NOTE_LEAD;
    var middle := EXTRACTION_NOTE + topic + EXTRACTION_INDICATE + topic + EXTRACTION_UNDETERMINED + topic + EXTRACTION_CLOSING;
    StartsWithAppend(lead + middle, INST_CLOSE, lead);
  }

  /** `extract_html_information_prompt(text, topic)`. */
  function ExtractHtmlInformationPrompt(text: string, topic: string): string
  {
    ExtractionHead(topic) + text + ExtractionTail(topic)
  }

  /** The extraction prompt sits in the instruction frame, and its length grows by the
      text once and by the topic four times. */
  lemma ExtractionPromptFrame(text: string, topic: string)
    ensures StartsWith(ExtractHtmlInformationPrompt(text, topic), "[INST]\n")
    ensures EndsWith(ExtractHtmlInformationPrompt(text, topic), "[/INST]")
    ensures |ExtractHtmlInformationPrompt(text, topic)| == 871 + |text| + 4 * |topic|
  {
    var head := ExtractionHead(topic);
    var tail := ExtractionTail(topic);
    ExtractionHeadShape(topic);
    ExtractionTailShape(topic);
    StartsWithAppend(head, text, INST_OPEN);
    StartsWithAppend(head + text, tail, INST_OPEN);
    EndsWithPrepend(head + text, tail, INST_CLOSE);
  }

  /** The text sits verbatim right after the topic-dependent head, between
      `":\n\n"` and `"\n\nNote: "`. */
  lemma ExtractionPromptText(text: string, topic: string)
    ensures ExtractHtmlInformationPrompt(text, topic)[515 + |topic|..515 + |topic| + |text|] == text
    ensures ExtractHtmlInformationPrompt(text, topic)[512 + |topic|..515 + |topic|] == ":\n\n"
    ensures ExtractHtmlInformationPrompt(text, topic)[515 + |topic| + |text|..523 + |topic| + |text|] == "\n\nNote: "
  {
    var head := ExtractionHead(topic);
    var tail := ExtractionTail(topic);
    ExtractionHeadShape(topic);
    ExtractionTailShape(topic);
    assert ExtractHtmlInformationPrompt(text, topic) == head + text + tail;
    SliceMiddle(head, text, tail, 515 + |topic|);
    SliceEndOfFirst(head, text, tail, ":\n\n", 512 + |topic|, 515 + |topic|);
    SliceStartOfLast(head, text, tail, "\n\nNote: ", 515 + |topic| + |text|, 523 + |topic| + |text|);
  }

  /** `summary_prompt(text, topic)`. */
  function SummaryPrompt(text: string, topic: string): string
  {
    SummaryHead(topic) + text + SUMMARY_SUFFIX
  }

  /** The summary prompt sits in the instruction frame, ends with the closing request,
      and its length grows by the text and the topic once each. */
  lemma SummaryPromptFrame(text: string, topic: string)
    ensures StartsWith(SummaryPrompt(text, topic), "[INST]\n")
    ensures EndsWith(SummaryPrompt(text, topic), "\nCONCISE summary:\n\n[/INST]")
    ensures |SummaryPrompt(text, topic)| == 394 + |text| + |topic|
  {
    var head := SummaryHead(topic);
    SummaryHeadShape(topic);
    StartsWithAppend(head, text, INST_OPEN);
    StartsWithAppend(head + text, SUMMARY_SUFFIX, INST_OPEN);
  }

  /** What the summary prompt puts before the text: it depends on the topic only. */
  function SummaryHead(topic: string): string
  {
    INST_OPEN + (SUMMARY_ROLE + SUMMARY_ASK + topic) + "\n"
  }

  lemma SummaryHeadShape(topic: string)
    ensures |SummaryHead(topic)| == 368 + |topic|
    ensures StartsWith(SummaryHead(topic), INST_OPEN)
  {
    StartsWithAppend(INST_OPEN + (SUMMARY_ROLE + SUMMARY_ASK + topic), "\n", INST_OPEN);
  }

  /** The text sits verbatim between the topic line and the closing request. */
  lemma SummaryPromptText(text: string, topic: string)
    ensures SummaryPrompt(text, topic)[368 + |topic|..368 + |topic| + |text|] == text
    ensures SummaryPrompt(text, topic)[367 + |topic|..368 + |topic|] == "\n"
  {
    var head := SummaryHead(topic);
    SummaryHeadShape(topic);
    SliceMiddle(head, text, SUMMARY_SUFFIX, 368 + |topic|);
    SliceEndOfFirst(head, text, SUMMARY_SUFFIX, "\n", 367 + |topic|, 368 + |topic|);
  }

  /** For a fixed topic, different texts give different extraction prompts. */
  lemma ExtractionPromptInjective(text1: string, text2: string, topic: string)
    requires ExtractHtmlInformationPrompt(text1, topic) == ExtractHtmlInformationPrompt(text2, topic)
    ensures text1 == text2
  {
    ExtractionPromptText(text1, topic);
    ExtractionPromptText(text2, topic);
  }

  /** For a fixed topic, different texts give different summary prompts. */
  lemma SummaryPromptInjective(text1: string, text2: string, topic: string)
    requires SummaryPrompt(text1, topic) == SummaryPrompt(text2, topic)
    ensures text1 == text2
  {
    SummaryPromptText(text1, topic);
    SummaryPromptText(text2, topic);
  }
}
