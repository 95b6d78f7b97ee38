/** engine/netconf_agent.py, _xml_escape: three replacements one after the other. */
module XmlEscape {

  /** s.replace(c, by) for a single character. */
  function Replace(s: string, c: char, text: string): string {
    if s == "" then "" else (if s[0] == c then text else [s[0]]) + Replace(s[1..], c, text)
  }

  function Escape(s: string): string {
    Replace(Replace(Replace(s, '&', "&amp;"), '<', "&lt;"), '>', "&gt;")
  }

  /** How a reader resolves the predefined entities of section 4.6 of XML 1.0. */
  function Unescape(s: string): string
    decreases |s|
  {
    if s == "" then ""
    else if "&amp;" <= s then "&" + Unescape(s[5..])
    else if "&lt;" <= s then "<" + Unescape(s[4..])
    else if "&gt;" <= s then ">" + Unescape(s[4..])
    else [s[0]] + Unescape(s[1..])
  }

  function Escaped(c: char): string {
    if c == '&' then "&amp;" else if c == '<' then "&lt;" else if c == '>' then "&gt;" else [c]
  }

  lemma {:induction false} ReplaceAppend(a: string, b: string, c: char, text: string)
    ensures Replace(a + b, c, text) == Replace(a, c, text) + Replace(b, c, text)
  {
    if a == "" {
      assert a + b == b;
    } else {
      assert (a + b)[1..] == a[1..] + b;
      ReplaceAppend(a[1..], b, c, text);
    }
  }

  lemma {:induction false} ReplaceAbsent(s: string, c: char, text: string)
    requires c !in s
    ensures Replace(s, c, text) == s
  {
    if s != "" { ReplaceAbsent(s[1..], c, text); }
  }

  lemma ReplaceOne(c: char, d: char, text: string)
    ensures Replace([c], d, text) == if c == d then text else [c]
  {
    assert [c][1..] == "" && Replace("", d, text) == "";
  }

  /** The ampersand goes first, so no replacement touches what an earlier one wrote: escaping works
      character by character. */
  lemma EscapeStep(c: char, s: string)
    ensures Escape([c] + s) == Escaped(c) + Escape(s)
  {
    hide Replace;
    var a, rest := if c == '&' then "&amp;" else [c], Replace(s, '&', "&amp;");
    ReplaceAppend([c], s, '&', "&amp;");
    ReplaceOne(c, '&', "&amp;");
    var b, rest2 := if c == '<' then "&lt;" else a, Replace(rest, '<', "&lt;");
    ReplaceAppend(a, rest, '<', "&lt;");
    assert Replace(a, '<', "&lt;") == b by {
      if c == '&' { ReplaceAbsent(a, '<', "&lt;"); } else { ReplaceOne(c, '<', "&lt;"); }
    }
    ReplaceAppend(b, rest2, '>', "&gt;");
    if c == '&' || c == '<' { ReplaceAbsent(b, '>', "&gt;"); } else { ReplaceOne(c, '>', "&gt;"); }
  }

  lemma UnescapeStep(c: char, s: string)
    ensures Unescape(Escaped(c) + s) == [c] + Unescape(s)
  {
    var t := Escaped(c) + s;
    assert t[|Escaped(c)|..] == s;
    assert t[0] == Escaped(c)[0] && (c == '&' || c == '<' || c == '>' ==> t[1] == Escaped(c)[1]);
    if c == '&' {
      assert "&amp;" <= t;
    } else if c == '<' {
      assert "&lt;" <= t && "&amp;"[1] == 'a';
    } else if c == '>' {
      assert "&gt;" <= t && "&amp;"[1] == 'a' && "&lt;"[1] == 'l';
    }
  }

  /** Every text comes back from its escaped form, and the escaped form contains no markup. */
  lemma {:induction false} EscapeRoundTrip(s: string)
    ensures Unescape(Escape(s)) == s && '<' !in Escape(s) && '>' !in Escape(s)
  {
    hide Escape, Unescape;
    if s == "" {
      NothingToEscape();
    } else {
      EscapeStep(s[0], s[1..]);
      assert [s[0]] + s[1..] == s;
      UnescapeStep(s[0], Escape(s[1..]));
      EscapeRoundTrip(s[1..]);
    }
  }

  lemma NothingToEscape()
    ensures Escape("") == "" && Unescape("") == ""
  {}
}
