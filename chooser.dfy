/**
 * The choice of a language analyzer for a notebook or file language. Only
 * Python is implemented; any other language still gets the Python analyzer,
 * together with a console warning, which the model returns as a flag.
 */
module Chooser {

  /** The analyzer classes the chooser can hand out. */
  datatype AnalyzerClass = PythonAnalyzer

  /** What `chooseLanguageAnalyzer` returns, and whether it warned on the console. */
  datatype Choice = Choice(analyzer: AnalyzerClass, warned: bool)

  /** `chooseLanguageAnalyzer`: always the Python analyzer; a warning for any language but "python". */
  function ChooseLanguageAnalyzer(language: string): (r: Choice)
    ensures r.analyzer == PythonAnalyzer
    ensures r.warned <==> language != "python"
  {
    Choice(PythonAnalyzer, language != "python")
  }

  /** The analyzer handed out does not depend on the language. */
  lemma AnalyzerIndependentOfLanguage(language1: string, language2: string)
    ensures ChooseLanguageAnalyzer(language1).analyzer == ChooseLanguageAnalyzer(language2).analyzer
  {
  }

  /** Python is chosen silently; "R" is not supported yet and warns. */
  lemma PythonIsSilentAndRWarns()
    ensures ChooseLanguageAnalyzer("python") == Choice(PythonAnalyzer, false)
    ensures ChooseLanguageAnalyzer("R") == Choice(PythonAnalyzer, true)
  {
  }
}
