/**
 * `FileLoader.load_text_file`: the file's text, stripped, or an error when
 * nothing but whitespace is left. The file's contents are an input here.
 */
module FileLoader {
  import opened Wrappers
  import opened Text

  /** The `ValueError` raised for an empty file; it names the file. */
  datatype LoadError = EmptyContent(path: string)

  /** `load_text_file(path)` given the text read from `path`. */
  function LoadTextFile(path: string, content: string): (r: Result<string, LoadError>)
    ensures r.Failure? <==> AllSpace(content)
    ensures r.Failure? ==> r.error == EmptyContent(path)
    ensures r.Success? ==> r.value != [] && IsTrimmed(r.value) && r.value == Strip(content)
  {
    var text := Strip(content);
    if text == [] then Failure(EmptyContent(path)) else Success(text)
  }

  /** The loaded text is `content` less its surrounding whitespace, nothing else. */
  lemma LoadedTextIsInfix(path: string, content: string, text: string)
    requires LoadTextFile(path, content) == Success(text)
    ensures exists pre, post :: AllSpace(pre) && AllSpace(post) && content == pre + text + post
  {
    var pre, post := StripSplit(content);
  }

  /** Loading a file whose content is already a loaded text gives that text back. */
  lemma LoadIdempotent(path: string, content: string, other: string)
    requires LoadTextFile(path, content).Success?
    ensures LoadTextFile(other, LoadTextFile(path, content).value) == LoadTextFile(path, content)
  {
    StripIdempotent(content);
  }

  /** Extra whitespace around a file's text changes neither the outcome nor the text. */
  lemma LoadIgnoresSurroundingSpace(path: string, pre: string, content: string, post: string)
    requires AllSpace(pre) && AllSpace(post)
    ensures LoadTextFile(path, pre + content + post) == LoadTextFile(path, content)
  {
    StripAbsorbsSpace(pre, content, post);
  }

  /** A whitespace-only or empty file is rejected. */
  lemma LoadRejectsBlank()
    ensures LoadTextFile("title.txt", "") == Failure(EmptyContent("title.txt"))
    ensures LoadTextFile("title.txt", " \t\n") == Failure(EmptyContent("title.txt"))
  {
    assert AllSpace(" \t\n");
  }
}
