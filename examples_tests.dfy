/**
 * Fixed examples of escaping and of the scalar body, stated about the model.
 */
module CodeToSnippetExamples {
  import opened Text
  import opened CodeToSnippet

  /** Repeated dollar signs, backslashes and quotes. */
  lemma EscapeRepeatedExample()
    ensures Escaped(@"$$\\""""") == @"\\$\\$\\\\\""\"""
  {
  }

  /** A text with nothing to escape. */
  lemma EscapePlainExample()
    ensures Escaped("hello world!!") == "hello world!!"
  {
    EscapedSafeUnchanged("hello world!!");
  }

  /** One line holding a backslash, a quote and a dollar sign, as a scalar body. */
  lemma BodyOneLineExample()
    ensures Escaped(@"\""$") == @"\\\""\\$"
    ensures CodeToSnippetBody([@"\""$"]) == "\t\t\"body\": \"" + @"\\\""\\$" + "\","
  {
  }
}
