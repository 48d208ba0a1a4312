/** The anchor normalisation and link builder of func.py (lines 12-24). */
module MarkdownText {
  import opened Wrappers
  import opened TextOps

  /** `_get_markdown_safe_text`: strip, lower-case, turn spaces into `-`, then
      keep only alphanumerics, `-` and `_`. Whatever the input, the result is
      made of lower-case letters, digits, `-` and `_`, so it holds no space or
      other whitespace. */
  function SafeText(s: string): (r: string)
    ensures IsAnchor(r)
    ensures forall c :: c in r ==> !IsSpace(c) && c != ' '
  {
    var dashed := ReplaceChar(Lower(Strip(s)), ' ', '-');
    assert forall c :: c in dashed ==> !IsUpper(c) by {
      forall c | c in dashed ensures !IsUpper(c) {
        var i :| 0 <= i < |dashed| && dashed[i] == c;
      }
    }
    KeepLinkCharsKeepsExactly(dashed);
    KeepLinkChars(dashed)
  }

  /** A string already made only of anchor characters is returned unchanged. */
  lemma {:induction false} SafeTextFixesAnchors(s: string)
    requires IsAnchor(s)
    ensures SafeText(s) == s
  {
    assert Strip(s) == s by {
      assert s != [] ==> s[0] in s && s[|s| - 1] in s;
    }
    assert Lower(s) == s by {
      forall i | 0 <= i < |s| ensures Lower(s)[i] == s[i] {
        assert s[i] in s;
      }
    }
    assert ReplaceChar(s, ' ', '-') == s by {
      forall i | 0 <= i < |s| ensures s[i] != ' ' {
        assert s[i] in s;
      }
    }
    KeepLinkCharsFixes(s);
  }

  /** Normalising a normalised string changes nothing. */
  lemma {:induction false} SafeTextIdempotent(s: string)
    ensures SafeText(SafeText(s)) == SafeText(s)
  {
    SafeTextFixesAnchors(SafeText(s));
  }

  /** `get_markdown_hyperlink`: the link `[text](#anchor)` whose text is the
      input verbatim and whose anchor is the input normalised; reading the link
      back yields both (so, by ParseLink's contract, the link is exactly
      `"[" + text + "](#" + SafeText(text) + ")"`). */
  function Hyperlink(text: string): (r: string)
    ensures ParseLink(r) == Some(Link(text, SafeText(text)))
  {
    ParseLinkOfBuilt(text, SafeText(text));
    "[" + text + "](#" + SafeText(text) + ")"
  }

  /** The link spelled out once the anchor of its text is known. */
  lemma HyperlinkSpelled(text: string, anchor: string)
    requires SafeText(text) == anchor
    ensures Hyperlink(text) == "[" + text + "](#" + anchor + ")"
  {
  }

  /** The normalisation of a text whose stripped, lower-cased and dashed
      form is already made of anchor characters is that form. */
  lemma SafeTextOfDashed(s: string, dashed: string)
    requires ReplaceChar(Lower(Strip(s)), ' ', '-') == dashed && IsAnchor(dashed)
    ensures SafeText(s) == dashed
  {
    KeepLinkCharsFixes(dashed);
  }

  /** The worked example: a tag described as "Thermo Dynamics" gets the
      anchor `thermo-dynamics`. */
  lemma ExampleTagAnchor()
    ensures SafeText("Thermo Dynamics") == "thermo-dynamics"
  {
    assert TrimStart("Thermo Dynamics") == "Thermo Dynamics";
    assert TrimEnd("Thermo Dynamics") == "Thermo Dynamics";
    assert Lower("Thermo Dynamics") == "thermo dynamics";
    assert ReplaceChar("thermo dynamics", ' ', '-') == "thermo-dynamics";
    SafeTextOfDashed("Thermo Dynamics", "thermo-dynamics");
  }

  /** The worked example: a paragraph titled "Entropy" gets the anchor `entropy`. */
  lemma ExampleParagraphAnchor()
    ensures SafeText("Entropy") == "entropy"
  {
    assert TrimStart("Entropy") == "Entropy";
    assert TrimEnd("Entropy") == "Entropy";
    assert Lower("Entropy") == "entropy";
    assert ReplaceChar("entropy", ' ', '-') == "entropy";
    SafeTextOfDashed("Entropy", "entropy");
  }
}
