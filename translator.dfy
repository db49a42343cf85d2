/** translator.py: a Translator holds a target language code, the map from
    language codes to language names read from conf/language_code.json, and
    a chat model. `translation` asks the model to translate one text and turns
    every failure into the empty string.

    The chat model is the function `llm` from a prompt to a reply; a reply is
    either the model's content or the exception its invoke raised. */
module Translate {

  datatype Option<T> = None | Some(value: T)

  datatype Reply = Content(content: string) | Raised(error: string)

  /** The language map file as load_language_map finds it: parsed to a map,
      or missing or unparsable. */
  datatype LanguageFile = Parsed(entries: map<string, string>) | Unreadable(error: string)

  /** The sentinel that get_language_name returns for an unknown code. */
  const NoLanguage: string := "none"

  /** The PromptTemplate of Translator.__init__, split around its two
      placeholders {language_name} and {text}. */
  const PromptHead: string := "翻訳文に余計な装飾はしない、改行を含まず１行で表示する、というルールに従って次の文章を"
  const PromptTail: string := "に翻訳して下さい:\n\n"

  function FormatPrompt(text: string, languageName: string): (prompt: string)
    ensures |prompt| >= |text| && prompt[|prompt| - |text|..] == text
    ensures |prompt| >= |PromptHead| && prompt[..|PromptHead|] == PromptHead
  {
    PromptHead + languageName + PromptTail + text
  }

  /** load_language_map: the parsed map, or the empty map when reading or
      parsing fails. */
  function LoadLanguageMap(file: LanguageFile): (languageMap: map<string, string>)
    ensures file.Unreadable? ==> languageMap == map[]
    ensures file.Parsed? ==> languageMap == file.entries
  {
    match file
    case Parsed(entries) => entries
    case Unreadable(_) => map[]
  }

  class Translator {
    const llm: string -> Reply
    const translateToLang: string
    const languageMap: map<string, string>

    constructor (llm: string -> Reply, translateToLang: string, file: LanguageFile)
      ensures this.llm == llm && this.translateToLang == translateToLang
      ensures languageMap == LoadLanguageMap(file)
    {
      this.llm := llm;
      this.translateToLang := translateToLang;
      languageMap := LoadLanguageMap(file);
    }

    /** get_language_name: dict.get with the default 'none'. */
    function GetLanguageName(langCode: string): (name: string)
      ensures langCode in languageMap ==> name == languageMap[langCode]
      ensures langCode !in languageMap ==> name == NoLanguage
    {
      if langCode in languageMap then languageMap[langCode] else NoLanguage
    }

    /** The target language passes the check of `translation`: its code is a
        key of the map and its name is not the literal 'none'. */
    function Supported(): (b: bool)
      ensures b <==> translateToLang in languageMap && languageMap[translateToLang] != NoLanguage
    {
      GetLanguageName(translateToLang) != NoLanguage
    }

    /** The prompt `translation` sends to the chat model for `text`, or None
        when it returns before calling the model. */
    function Request(text: string): (prompt: Option<string>)
      ensures prompt.None? <==> text == "" || !Supported()
      ensures prompt.Some? ==> prompt.value == FormatPrompt(text, languageMap[translateToLang])
    {
      if text == "" then None
      else
        var languageName := GetLanguageName(translateToLang);
        if languageName == NoLanguage then None else Some(FormatPrompt(text, languageName))
    }

    /** translation: the empty text is returned at once; an unsupported
        target language and an exception from the model are caught and give
        the empty string; otherwise the result is the model's reply, as it
        is, line breaks included. */
    function Translation(text: string): (r: string)
      ensures text == "" ==> r == ""
      ensures !Supported() ==> r == ""
      ensures r != "" ==> text != "" && Supported()
                          && llm(FormatPrompt(text, languageMap[translateToLang])) == Content(r)
      ensures text != "" && Supported() && llm(FormatPrompt(text, languageMap[translateToLang])).Content? ==>
                r == llm(FormatPrompt(text, languageMap[translateToLang])).content
    {
      match Request(text)
      case None => ""
      case Some(prompt) =>
        match llm(prompt)
        case Content(content) => content
        case Raised(_) => ""
    }

    /** With the map that a failed load leaves behind, nothing is ever
        translated. */
    lemma EmptyMapTranslatesNothing(text: string)
      requires languageMap == map[]
      ensures Request(text) == None && Translation(text) == ""
    {
    }
  }
}
