/** `minifyFile` (main.js, lines 109-122): read a file, then hand its text to
    the JavaScript or the CSS minifier according to its extension. The file
    system and both minifiers are parameters: each either yields text or
    fails (a rejected promise). */
module Minify {
  import opened Results
  import Paths

  /** A minifier's outcome as the outcome of `minifyFile`. */
  function Lift(outcome: Result<string>): (r: Result<Option<string>>)
    ensures r.Ok? <==> outcome.Ok?
    ensures r.Ok? ==> r.value == Some(outcome.value)
  {
    match outcome
    case Ok(text) => Ok(Some(text))
    case Err(message) => Err(message)
  }

  /** The promise `minifyFile(file)` settles with: rejected when the read or the
      chosen minifier fails, resolved with minified text for ".js" and ".css",
      and resolved with no content (`undefined`) for any other extension. */
  function MinifyFile(
    file: string,
    readFile: string -> Result<string>,
    minifyJs: string -> Result<string>,
    minifyCss: string -> Result<string>
  ): (r: Result<Option<string>>)
    ensures r.Ok? ==> readFile(file).Ok?
    ensures r.Ok? && r.value.Some? ==>
      (Paths.Extname(file) == ".js" && minifyJs(readFile(file).value) == Ok(r.value.value)) ||
      (Paths.Extname(file) == ".css" && minifyCss(readFile(file).value) == Ok(r.value.value))
    ensures r == Ok(None) <==>
      readFile(file).Ok? && Paths.Extname(file) != ".js" && Paths.Extname(file) != ".css"
  {
    match readFile(file)
    case Err(message) => Err(message)
    case Ok(content) =>
      var extension := Paths.Extname(file);
      if extension == ".js" then Lift(minifyJs(content))
      else if extension == ".css" then Lift(minifyCss(content))
      else Ok(None)
  }

  /** A file named "*.js" goes to the JavaScript minifier, whatever the CSS one does. */
  lemma JsFilesUseJsMinifier(
    file: string,
    readFile: string -> Result<string>,
    minifyJs: string -> Result<string>,
    minifyCss: string -> Result<string>,
    otherCss: string -> Result<string>
  )
    requires Paths.HasExtension(file, ".js")
    requires readFile(file).Ok?
    ensures MinifyFile(file, readFile, minifyJs, minifyCss) == Lift(minifyJs(readFile(file).value))
    ensures MinifyFile(file, readFile, minifyJs, minifyCss) == MinifyFile(file, readFile, minifyJs, otherCss)
  {
    Paths.ExtnameJs(file);
  }

  /** A file named "*.css" goes to the CSS minifier, whatever the JavaScript one does. */
  lemma CssFilesUseCssMinifier(
    file: string,
    readFile: string -> Result<string>,
    minifyJs: string -> Result<string>,
    minifyCss: string -> Result<string>,
    otherJs: string -> Result<string>
  )
    requires Paths.HasExtension(file, ".css")
    requires readFile(file).Ok?
    ensures MinifyFile(file, readFile, minifyJs, minifyCss) == Lift(minifyCss(readFile(file).value))
    ensures MinifyFile(file, readFile, minifyJs, minifyCss) == MinifyFile(file, readFile, otherJs, minifyCss)
  {
    Paths.ExtnameCss(file);
    Paths.ExtnameJs(file);
  }

  /** Any other file is read and then resolves with no content, whatever
      either minifier does. */
  lemma OtherFilesHaveNoContent(
    file: string,
    readFile: string -> Result<string>,
    minifyJs: string -> Result<string>,
    minifyCss: string -> Result<string>
  )
    requires !Paths.HasExtension(file, ".js") && !Paths.HasExtension(file, ".css")
    ensures MinifyFile(file, readFile, minifyJs, minifyCss) ==
      if readFile(file).Ok? then Ok(None) else Err(readFile(file).message)
  {
    Paths.ExtnameCss(file);
    Paths.ExtnameJs(file);
  }
}
