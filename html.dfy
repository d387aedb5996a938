/** `escapeHtml` (timeline.js and app.js): the five HTML-special characters
  * replaced by their entities. */
module Html {
  import opened Wrappers
  import opened Text

  /** `{ "&": "&amp;", "<": "&lt;", ">": "&gt;", '"': "&quot;", "'": "&#39;" }[c]`, other characters kept. */
  function EscapeChar(c: char): string {
    if c == '&' then "&amp;"
    else if c == '<' then "&lt;"
    else if c == '>' then "&gt;"
    else if c == '"' then "&quot;"
    else if c == '\'' then "&#39;"
    else [c]
  }

  predicate IsMarkup(c: char) { c == '<' || c == '>' || c == '"' || c == '\'' }

  function Escape(s: string): (r: string)
    ensures forall i :: 0 <= i < |r| ==> !IsMarkup(r[i])
    ensures (forall i :: 0 <= i < |s| ==> s[i] != '&' && !IsMarkup(s[i])) ==> r == s
  {
    if s == [] then []
    else
      var head, tail := EscapeChar(s[0]), Escape(s[1..]);
      assert forall i :: 0 <= i < |head| ==> !IsMarkup(head[i]);
      assert forall i :: 0 <= i < |head + tail| ==> (head + tail)[i] == (if i < |head| then head[i] else tail[i - |head|]);
      head + tail
  }

  /** `(s ?? "").replace(/[&<>"']/g, ...)`: `null` and `undefined` give "". */
  function EscapeHtml(s: Option<string>): (r: string)
    ensures s.None? ==> r == ""
    ensures forall i :: 0 <= i < |r| ==> !IsMarkup(r[i])
  {
    Escape(s.GetOr(""))
  }

  /** Decodes the five entities `escapeHtml` writes, the reference inverse. */
  function Unescape(t: string): string
    decreases |t|
  {
    if t == [] then []
    else if t[0] != '&' then [t[0]] + Unescape(t[1..])
    else if StartsWith(t, "&amp;") then "&" + Unescape(t[5..])
    else if StartsWith(t, "&lt;") then "<" + Unescape(t[4..])
    else if StartsWith(t, "&gt;") then ">" + Unescape(t[4..])
    else if StartsWith(t, "&quot;") then "\"" + Unescape(t[6..])
    else if StartsWith(t, "&#39;") then "'" + Unescape(t[5..])
    else [t[0]] + Unescape(t[1..])
  }

  lemma NotPrefixAt(t: string, p: string, k: nat)
    requires k < |p| && k < |t| && t[k] != p[k]
    ensures !StartsWith(t, p)
  {
    if |p| <= |t| {
      assert t[..|p|][k] == t[k];
    }
  }

  /** Decoding the escape of one character gives that character back first. */
  lemma UnescapeHead(c: char, tail: string)
    ensures Unescape(EscapeChar(c) + tail) == [c] + Unescape(tail)
  {
    var t := EscapeChar(c) + tail;
    if c == '&' {
      assert t[..5] == "&amp;" && t[5..] == tail;
    } else if c == '<' {
      assert t[..4] == "&lt;" && t[4..] == tail;
      NotPrefixAt(t, "&amp;", 1);
    } else if c == '>' {
      assert t[..4] == "&gt;" && t[4..] == tail;
      NotPrefixAt(t, "&amp;", 1);
      NotPrefixAt(t, "&lt;", 1);
    } else if c == '"' {
      assert t[..6] == "&quot;" && t[6..] == tail;
      NotPrefixAt(t, "&amp;", 1);
      NotPrefixAt(t, "&lt;", 1);
      NotPrefixAt(t, "&gt;", 1);
    } else if c == '\'' {
      assert t[..5] == "&#39;" && t[5..] == tail;
      NotPrefixAt(t, "&amp;", 1);
      NotPrefixAt(t, "&lt;", 1);
      NotPrefixAt(t, "&gt;", 1);
      NotPrefixAt(t, "&quot;", 1);
    } else {
      assert t[0] == c && t[1..] == tail;
    }
  }

  /** Escaping loses nothing: decoding the entities gives the text back. */
  lemma {:induction false} EscapeRoundTrip(s: string)
    ensures Unescape(Escape(s)) == s
  {
    if s != [] {
      EscapeRoundTrip(s[1..]);
      UnescapeHead(s[0], Escape(s[1..]));
      assert s == [s[0]] + s[1..];
    }
  }
}
