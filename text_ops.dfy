/** The Python `str` operations that the anchor normalisation is built from
    (`strip`, `lower`, `replace`, `isalnum` and the filtering comprehension),
    and a reader for the `[text](#anchor)` links that it produces. Letters and
    digits are the ASCII ones; see README for what that leaves out. */
module TextOps {
  import opened Wrappers

  /** `str.isspace` on one character: the ASCII whitespace and separators and
      the Unicode space characters. */
  predicate IsSpace(c: char) {
    c == ' ' || '\t' <= c <= '\r' || '\U{1C}' <= c <= '\U{1F}' || c == '\U{85}' || c == '\U{A0}'
    || c == '\U{1680}' || '\U{2000}' <= c <= '\U{200A}' || c == '\U{2028}' || c == '\U{2029}'
    || c == '\U{202F}' || c == '\U{205F}' || c == '\U{3000}'
  }

  predicate IsUpper(c: char) { 'A' <= c <= 'Z' }
  predicate IsLower(c: char) { 'a' <= c <= 'z' }
  predicate IsDigit(c: char) { '0' <= c <= '9' }

  /** `str.isalnum` on one character. */
  predicate IsAlnum(c: char) { IsUpper(c) || IsLower(c) || IsDigit(c) }

  /** `str.lower` on one character: an upper-case letter becomes the
      lower-case letter at the same place in the alphabet. */
  function LowerChar(c: char): (r: char)
    ensures !IsUpper(r)
    ensures IsUpper(c) ==> IsLower(r) && r as int - 'a' as int == c as int - 'A' as int
    ensures IsAlnum(r) <==> IsAlnum(c)
    ensures !IsUpper(c) ==> r == c
  {
    if IsUpper(c) then (c as int + 32) as char else c
  }

  /** `str.lstrip()`: never longer than its input. */
  function TrimStart(s: string): (r: string)
    ensures |r| <= |s|
  {
    if s != [] && IsSpace(s[0]) then TrimStart(s[1..]) else s
  }

  /** `lstrip` drops the leading whitespace and nothing else. */
  lemma {:induction false} TrimStartDropsLeadingSpace(s: string)
    ensures |TrimStart(s)| <= |s| && TrimStart(s) == s[|s| - |TrimStart(s)|..]
    ensures forall i :: 0 <= i < |s| - |TrimStart(s)| ==> IsSpace(s[i])
    ensures TrimStart(s) != [] ==> !IsSpace(TrimStart(s)[0])
  {
    if s != [] && IsSpace(s[0]) {
      var t := s[1..];
      TrimStartDropsLeadingSpace(t);
      assert TrimStart(s) == TrimStart(t);
      assert t[|t| - |TrimStart(t)|..] == s[|s| - |TrimStart(t)|..];
      forall i | 0 <= i < |s| - |TrimStart(s)| ensures IsSpace(s[i]) {
        if 0 < i {
          assert s[i] == t[i - 1];
        }
      }
    }
  }

  /** `str.rstrip()`: never longer than its input. */
  function TrimEnd(s: string): (r: string)
    ensures |r| <= |s|
  {
    if s != [] && IsSpace(s[|s| - 1]) then TrimEnd(s[..|s| - 1]) else s
  }

  /** `rstrip` drops the trailing whitespace and nothing else. */
  lemma {:induction false} TrimEndDropsTrailingSpace(s: string)
    ensures |TrimEnd(s)| <= |s| && TrimEnd(s) == s[..|TrimEnd(s)|]
    ensures forall i :: |TrimEnd(s)| <= i < |s| ==> IsSpace(s[i])
    ensures TrimEnd(s) != [] ==> !IsSpace(TrimEnd(s)[|TrimEnd(s)| - 1])
  {
    if s != [] && IsSpace(s[|s| - 1]) {
      var t := s[..|s| - 1];
      TrimEndDropsTrailingSpace(t);
      assert TrimEnd(s) == TrimEnd(t);
      assert t[..|TrimEnd(t)|] == s[..|TrimEnd(t)|];
      forall i | |TrimEnd(s)| <= i < |s| ensures IsSpace(s[i]) {
        if i < |s| - 1 {
          assert s[i] == t[i];
        }
      }
    }
  }

  /** `str.strip()`: no whitespace is left at either end, and a string that
      has none at its ends is unchanged. */
  function Strip(s: string): (r: string)
    ensures |r| <= |s|
    ensures r != [] ==> !IsSpace(r[0]) && !IsSpace(r[|r| - 1])
    ensures (s == [] || (!IsSpace(s[0]) && !IsSpace(s[|s| - 1]))) ==> r == s
  {
    TrimStartDropsLeadingSpace(s);
    TrimEndDropsTrailingSpace(TrimStart(s));
    TrimEnd(TrimStart(s))
  }

  /** `str.lower()`: character by character, each upper-case letter becomes
      the lower-case letter at the same place in the alphabet, no upper-case
      letter is left, letters and digits stay letters and digits, and
      whatever is not an upper-case letter is kept as it is. */
  function Lower(s: string): (r: string)
    ensures |r| == |s|
    ensures forall i :: 0 <= i < |s| ==>
      !IsUpper(r[i]) && (IsAlnum(r[i]) <==> IsAlnum(s[i])) && (!IsUpper(s[i]) ==> r[i] == s[i])
    ensures forall i :: 0 <= i < |s| && IsUpper(s[i]) ==>
      IsLower(r[i]) && r[i] as int - 'a' as int == s[i] as int - 'A' as int
  {
    seq(|s|, i requires 0 <= i < |s| => LowerChar(s[i]))
  }

  /** `str.replace(old, new)` for single characters: every occurrence of
      `from` becomes `to`, so none is left when `to` differs, and every other
      character stays in place. */
  function ReplaceChar(s: string, from: char, to: char): (r: string)
    ensures |r| == |s|
    ensures forall i :: 0 <= i < |s| && s[i] == from ==> r[i] == to
    ensures from != to ==> from !in r
    ensures forall i :: 0 <= i < |s| && s[i] != from ==> r[i] == s[i]
  {
    seq(|s|, i requires 0 <= i < |s| => if s[i] == from then to else s[i])
  }

  /** The characters a hyperlink anchor may keep: `c.isalnum() or c in ['-', '_']`. */
  predicate IsLinkChar(c: char) { IsAlnum(c) || c == '-' || c == '_' }

  /** `''.join(c for c in s if c.isalnum() or c in ['-', '_'])`: never longer
      than its input. */
  function KeepLinkChars(s: string): (r: string)
    ensures |r| <= |s|
  {
    if s == [] then []
    else (if IsLinkChar(s[0]) then [s[0]] else []) + KeepLinkChars(s[1..])
  }

  /** The filter keeps exactly the link characters of its input: each kept
      character is one and comes from the input, and each link character of the
      input is kept. */
  lemma {:induction false} KeepLinkCharsKeepsExactly(s: string)
    ensures forall c :: c in KeepLinkChars(s) <==> c in s && IsLinkChar(c)
  {
    if s != [] {
      KeepLinkCharsKeepsExactly(s[1..]);
      assert s == [s[0]] + s[1..];
    }
  }

  /** The filter works character by character and keeps input order:
      filtering a concatenation is concatenating the filtered parts. With
      `KeepLinkChars([c])` being `[c]` for a link character and `[]` otherwise,
      this fixes the order and the number of the kept characters. */
  lemma {:induction false} KeepLinkCharsConcat(a: string, b: string)
    ensures KeepLinkChars(a + b) == KeepLinkChars(a) + KeepLinkChars(b)
  {
    if a == [] {
      assert a + b == b;
    } else {
      var head := if IsLinkChar(a[0]) then [a[0]] else [];
      assert (a + b)[0] == a[0] && (a + b)[1..] == a[1..] + b;
      KeepLinkCharsConcat(a[1..], b);
      calc {
        KeepLinkChars(a + b);
        head + KeepLinkChars(a[1..] + b);
        head + (KeepLinkChars(a[1..]) + KeepLinkChars(b));
        (head + KeepLinkChars(a[1..])) + KeepLinkChars(b);
        KeepLinkChars(a) + KeepLinkChars(b);
      }
    }
  }

  /** A string made only of link characters passes the filter unchanged. */
  lemma {:induction false} KeepLinkCharsFixes(s: string)
    requires forall c :: c in s ==> IsLinkChar(c)
    ensures KeepLinkChars(s) == s
  {
    if s != [] {
      assert s[0] in s;
      forall c | c in s[1..] ensures IsLinkChar(c) {
        assert c in s;
      }
      KeepLinkCharsFixes(s[1..]);
    }
  }

  /** The output alphabet of the normalisation: a lower-case ASCII letter or
      digit, `-` or `_`. */
  predicate IsAnchorChar(c: char) { IsLower(c) || IsDigit(c) || c == '-' || c == '_' }

  predicate IsAnchor(s: string) { forall c :: c in s ==> IsAnchorChar(c) }

  /** The two parts of a Markdown link `[text](#anchor)`. */
  datatype Link = Link(text: string, anchor: string)

  /** The index of the last `c` in `s`, or -1. */
  function LastIndexOf(s: string, c: char): (r: int)
    ensures -1 <= r < |s|
    ensures 0 <= r ==> s[r] == c
    ensures forall j :: r < j < |s| ==> s[j] != c
  {
    if s == [] then -1
    else if s[|s| - 1] == c then |s| - 1
    else LastIndexOf(s[..|s| - 1], c)
  }

  /** Reads `[text](#anchor)` back, splitting at the last `#`; the inverse of
      building a link whose anchor holds no `#`. */
  function ParseLink(link: string): (r: Option<Link>)
    ensures r.Some? ==> link == "[" + r.value.text + "](#" + r.value.anchor + ")" && '#' !in r.value.anchor
  {
    var h := LastIndexOf(link, '#');
    if 3 <= h && h + 2 <= |link| && link[0] == '[' && link[h - 2] == ']' && link[h - 1] == '('
       && link[|link| - 1] == ')'
    then
      var text, anchor := link[1..h - 2], link[h + 1..|link| - 1];
      assert link == "[" + text + "](#" + anchor + ")";
      assert forall j :: 0 <= j < |anchor| ==> anchor[j] == link[h + 1 + j];
      Some(Link(text, anchor))
    else None
  }

  /** A link built from any text and a `#`-free anchor is read back exactly. */
  lemma {:induction false} ParseLinkOfBuilt(text: string, anchor: string)
    requires '#' !in anchor
    ensures ParseLink("[" + text + "](#" + anchor + ")") == Some(Link(text, anchor))
  {
    var link := "[" + text + "](#" + anchor + ")";
    var k := |text| + 3;
    assert link[k] == '#';
    forall j | k < j < |link| ensures link[j] != '#' {
      if j < |link| - 1 {
        assert link[j] == anchor[j - k - 1];
      }
    }
    var h := LastIndexOf(link, '#');
    assert h == k;
    assert link[1..h - 2] == text;
    assert link[h + 1..|link| - 1] == anchor;
  }
}
