/**
 * The last step of `stringify`: every line feed of the JSON text becomes the
 * platform line terminator, and one more terminator ends the text.
 */
module LineEndings {

  /** `text.replace(/\n/g, eol)`. */
  function ReplaceNewlines(text: string, eol: string): string
  {
    if text == [] then []
    else (if text[0] == '\n' then eol else [text[0]]) + ReplaceNewlines(text[1..], eol)
  }

  /**
   * `json.replace(/\n/g, EOL) + EOL`. A `$` in the replacement string would
   * be read as a substitution pattern; the platform terminators have none.
   */
  function WithLineEndings(json: string, eol: string): (out: string)
    requires '$' !in eol
    ensures |out| >= |eol| && out[|out| - |eol|..] == eol
  {
    ReplaceNewlines(json, eol) + eol
  }

  function CountNewlines(s: string): nat
  {
    if s == [] then 0 else (if s[0] == '\n' then 1 else 0) + CountNewlines(s[1..])
  }

  /** Replacement works piece by piece: it distributes over concatenation. */
  lemma {:induction false} ReplaceNewlinesAppend(a: string, b: string, eol: string)
    ensures ReplaceNewlines(a + b, eol) == ReplaceNewlines(a, eol) + ReplaceNewlines(b, eol)
  {
    if a != [] {
      assert (a + b)[1..] == a[1..] + b;
      ReplaceNewlinesAppend(a[1..], b, eol);
    } else {
      assert a + b == b;
    }
  }

  /** Text without line feeds comes through unchanged. */
  lemma {:induction false} ReplaceNewlinesNoLineFeed(s: string, eol: string)
    requires '\n' !in s
    ensures ReplaceNewlines(s, eol) == s
  {
    if s != [] {
      assert s == [s[0]] + s[1..];
      ReplaceNewlinesNoLineFeed(s[1..], eol);
    }
  }

  /** Each line feed grows into `|eol|` characters; every other character stays one. */
  lemma {:induction false} ReplaceNewlinesLength(s: string, eol: string)
    ensures |ReplaceNewlines(s, eol)| == |s| - CountNewlines(s) + CountNewlines(s) * |eol|
  {
    if s != [] {
      ReplaceNewlinesLength(s[1..], eol);
      if s[0] == '\n' {
        calc {
          CountNewlines(s) * |eol|;
          (1 + CountNewlines(s[1..])) * |eol|;
          |eol| + CountNewlines(s[1..]) * |eol|;
        }
      }
    }
  }

  /** With a line feed as terminator the text is unchanged, then one line feed is added. */
  lemma {:induction false} LineFeedTerminator(json: string)
    ensures WithLineEndings(json, "\n") == json + "\n"
  {
    LineFeedUnchanged(json);
  }

  lemma {:induction false} LineFeedUnchanged(s: string)
    ensures ReplaceNewlines(s, "\n") == s
  {
    if s != [] {
      assert s == [s[0]] + s[1..];
      LineFeedUnchanged(s[1..]);
    }
  }

  /** Turns each carriage return and line feed pair back into a line feed. */
  function CollapseCrLf(s: string): string
  {
    if s == [] then []
    else if |s| >= 2 && s[0] == '\r' && s[1] == '\n' then "\n" + CollapseCrLf(s[2..])
    else [s[0]] + CollapseCrLf(s[1..])
  }

  /**
   * On a Windows-style terminator the replacement can be undone. `JSON.stringify`
   * escapes carriage returns inside strings, so its output has none.
   */
  lemma {:induction false} CrLfRoundTrip(s: string)
    requires '\r' !in s
    ensures CollapseCrLf(ReplaceNewlines(s, "\r\n")) == s
  {
    if s != [] {
      assert s == [s[0]] + s[1..];
      CrLfRoundTrip(s[1..]);
      if s[0] == '\n' {
        assert ReplaceNewlines(s, "\r\n") == "\r\n" + ReplaceNewlines(s[1..], "\r\n");
      } else {
        assert ReplaceNewlines(s, "\r\n") == [s[0]] + ReplaceNewlines(s[1..], "\r\n");
      }
    }
  }

  /** The whole `stringify` tail on a Windows-style terminator collapses back to the text and one line feed. */
  lemma CrLfTerminator(json: string)
    requires '\r' !in json
    ensures CollapseCrLf(WithLineEndings(json, "\r\n")) == json + "\n"
  {
    ReplaceNewlinesAppend(json, "\n", "\r\n");
    assert ReplaceNewlines("\n", "\r\n") == "\r\n";
    assert json + "\n" == json + ['\n'];
    CrLfRoundTrip(json + "\n");
  }
}
