/** The part of an XML tree the processor reads and writes, and the dom4j
    text operations it relies on. Parsing and serialisation are not modelled:
    a stream is either already decoded into its root element or does not
    parse. */
module Dom {
  import opened TemplateTypes

  /** An element: its local name, its attributes, its child elements in
      document order, and its character data. */
  datatype Element = Element(
    tag: string,
    attrs: map<string, string>,
    children: seq<Element>,
    text: string)

  /** The content of a package member: text that does not parse as XML, or
      a document given by its root element. */
  datatype Content = Raw(data: string) | Xml(root: Element)

  /** DocumentHelper.parseText followed by getRootElement. */
  function ParseText(c: Content): (r: Result<Element>)
    ensures r.Err? <==> c.Raw?
    ensures r.Err? ==> r.error == MalformedXml
  {
    match c
    case Raw(_) => Err(MalformedXml)
    case Xml(root) => Ok(root)
  }

  /** Element.attributeValue: None when the attribute is absent (null). */
  function AttributeValue(e: Element, attr: string): Option<string> {
    if attr in e.attrs then Some(e.attrs[attr]) else None
  }

  /** The delimiters of a default java.util.StringTokenizer. */
  predicate IsWhitespace(c: char) {
    c == ' ' || c == '\t' || c == '\n' || c == '\r' || c == '\U{000C}'
  }

  /** s without its leading whitespace. */
  function SkipWhitespace(s: string): (t: string)
    ensures |t| <= |s| && t == s[|s| - |t|..]
    ensures t == [] || !IsWhitespace(t[0])
  {
    if |s| > 0 && IsWhitespace(s[0]) then SkipWhitespace(s[1..]) else s
  }

  /** The length of the run of non-whitespace characters s starts with. */
  function WordLength(s: string): (n: nat)
    ensures n <= |s|
    ensures forall i :: 0 <= i < n ==> !IsWhitespace(s[i])
    ensures n < |s| ==> IsWhitespace(s[n])
  {
    if |s| > 0 && !IsWhitespace(s[0]) then 1 + WordLength(s[1..]) else 0
  }

  /** The tokens a StringTokenizer with the default delimiters yields. */
  function Tokens(s: string): seq<string>
    decreases |s|
  {
    var t := SkipWhitespace(s);
    if t == [] then [] else
      var n := WordLength(t);
      [t[..n]] + Tokens(t[n..])
  }

  /** The tokens joined by single spaces. */
  function JoinWithSpace(ts: seq<string>): string {
    if |ts| == 0 then ""
    else if |ts| == 1 then ts[0]
    else ts[0] + " " + JoinWithSpace(ts[1..])
  }

  /** Element.getTextTrim: the text with its leading and trailing whitespace
      removed and every inner run of whitespace replaced by one space. */
  function TextTrim(s: string): string {
    JoinWithSpace(Tokens(s))
  }

  /** Text that TextTrim leaves as it is: its only whitespace is single
      spaces between other characters. */
  predicate IsNormalText(s: string) {
    && (forall i :: 0 <= i < |s| && IsWhitespace(s[i]) ==> s[i] == ' ')
    && (|s| > 0 ==> s[0] != ' ' && s[|s| - 1] != ' ')
    && (forall i, j :: 0 <= i && j == i + 1 < |s| && s[i] == ' ' ==> s[j] != ' ')
  }

  /** A suffix of normal text that starts after a space is normal. */
  lemma NormalSuffix(s: string, m: nat)
    requires IsNormalText(s) && 0 < m < |s| && s[m - 1] == ' '
    ensures IsNormalText(s[m..]) && |s[m..]| > 0 && !IsWhitespace(s[m..][0])
  {
    var r := s[m..];
    assert forall i :: 0 <= i < |r| ==> r[i] == s[m + i];
  }

  /** Tokenising skips a single leading space before a word. */
  lemma TokensAfterSpace(s: string)
    requires |s| > 1 && s[0] == ' ' && !IsWhitespace(s[1])
    ensures Tokens(s) == Tokens(s[1..])
  {
    assert SkipWhitespace(s[1..]) == s[1..];
    assert SkipWhitespace(s) == s[1..];
  }

  /** Tokenising text that starts with a word. */
  lemma TokensOfWord(s: string)
    requires |s| > 0 && !IsWhitespace(s[0])
    ensures Tokens(s) == [s[..WordLength(s)]] + Tokens(s[WordLength(s)..])
  {
    assert SkipWhitespace(s) == s;
  }

  lemma JoinCons(w: string, ts: seq<string>)
    requires |ts| > 0
    ensures JoinWithSpace([w] + ts) == w + " " + JoinWithSpace(ts)
  {
    assert ([w] + ts)[1..] == ts;
  }

  lemma SplitAtSpace(s: string, n: nat)
    requires n < |s| && s[n] == ' '
    ensures s == s[..n] + " " + s[n + 1..]
  {
    assert s[n..] == [s[n]] + s[n + 1..];
    assert s == s[..n] + s[n..];
  }

  /** Normal text that is more than one word: its first word, a space, and
      normal text. */
  lemma NormalTextStep(s: string)
    requires IsNormalText(s) && |s| > 0 && WordLength(s) < |s|
    ensures var n := WordLength(s);
            && n + 1 < |s| && s == s[..n] + " " + s[n + 1..]
            && IsNormalText(s[n + 1..])
            && Tokens(s) == [s[..n]] + Tokens(s[n + 1..])
  {
    var n := WordLength(s);
    TokensOfWord(s);
    assert s[n] == ' ' && n + 1 < |s|;
    NormalSuffix(s, n + 1);
    assert s[n..][1..] == s[n + 1..];
    TokensAfterSpace(s[n..]);
    SplitAtSpace(s, n);
  }

  /** Normal text is its own getTextTrim. */
  lemma {:induction false} NormalTextIsFixed(s: string)
    requires IsNormalText(s)
    ensures TextTrim(s) == s
    ensures |s| > 0 ==> |Tokens(s)| > 0
    decreases |s|
  {
    if |s| > 0 {
      var n := WordLength(s);
      if n == |s| {
        TokensOfWord(s);
        assert s[..n] == s && s[n..] == [];
      } else {
        NormalTextStep(s);
        var rest := s[n + 1..];
        NormalTextIsFixed(rest);
        JoinCons(s[..n], Tokens(rest));
      }
    }
  }

  /** Every token is a non-empty run of non-whitespace characters. */
  lemma {:induction false} TokensAreWords(s: string)
    ensures forall k :: 0 <= k < |Tokens(s)| ==> IsWord(Tokens(s)[k])
    decreases |s|
  {
    var t := SkipWhitespace(s);
    if t != [] {
      var n := WordLength(t);
      TokensStep(s, t);
      TokensAreWords(t[n..]);
      FirstWord(t);
      ConsWords(t[..n], Tokens(t[n..]));
    }
  }

  /** One step of tokenising x, whose leading whitespace leaves t. */
  lemma TokensStep(x: string, t: string)
    requires SkipWhitespace(x) == t && t != []
    ensures Tokens(x) == [t[..WordLength(t)]] + Tokens(t[WordLength(t)..])
  {
  }

  lemma {:induction false} FirstWord(t: string)
    requires |t| > 0 && !IsWhitespace(t[0])
    ensures IsWord(t[..WordLength(t)])
  {
    var w := t[..WordLength(t)];
    assert WordLength(t) > 0;
    forall i | 0 <= i < |w| ensures !IsWhitespace(w[i]) {
      assert w[i] == t[i];
    }
  }

  lemma {:induction false} ConsWords(w: string, rest: seq<string>)
    requires IsWord(w) && forall k :: 0 <= k < |rest| ==> IsWord(rest[k])
    ensures forall k :: 0 <= k < |[w] + rest| ==> IsWord(([w] + rest)[k])
  {
    forall k | 0 <= k < |[w] + rest| ensures IsWord(([w] + rest)[k]) {
      if k > 0 { assert ([w] + rest)[k] == rest[k - 1]; }
    }
  }

  predicate IsWord(w: string) {
    |w| > 0 && forall i :: 0 <= i < |w| ==> !IsWhitespace(w[i])
  }

  /** Words joined by single spaces make normal text. */
  lemma {:induction false} JoinedWordsAreNormal(ts: seq<string>)
    requires forall k :: 0 <= k < |ts| ==> IsWord(ts[k])
    ensures IsNormalText(JoinWithSpace(ts))
    ensures |ts| > 0 ==> |JoinWithSpace(ts)| > 0 && !IsWhitespace(JoinWithSpace(ts)[0])
  {
    if |ts| == 1 {
    } else if |ts| > 1 {
      var w, j := ts[0], JoinWithSpace(ts[1..]);
      JoinedWordsAreNormal(ts[1..]);
      var s := w + " " + j;
      assert JoinWithSpace(ts) == s;
      assert forall i :: 0 <= i < |w| ==> s[i] == w[i];
      assert s[|w|] == ' ';
      assert forall i :: |w| < i < |s| ==> s[i] == j[i - |w| - 1];
    }
  }

  /** getTextTrim always yields normal text; with NormalTextIsFixed this makes
      it idempotent. */
  lemma TextTrimIsNormal(s: string)
    ensures IsNormalText(TextTrim(s))
    ensures TextTrim(TextTrim(s)) == TextTrim(s)
  {
    TokensAreWords(s);
    JoinedWordsAreNormal(Tokens(s));
    NormalTextIsFixed(TextTrim(s));
  }

  predicate AllWhitespace(s: string) {
    forall i :: 0 <= i < |s| ==> IsWhitespace(s[i])
  }

  lemma {:induction false} SkipLeading(ws: string, s: string)
    requires AllWhitespace(ws)
    ensures SkipWhitespace(ws + s) == SkipWhitespace(s)
    decreases |ws|
  {
    if |ws| > 0 {
      assert (ws + s)[0] == ws[0];
      assert (ws + s)[1..] == ws[1..] + s;
      assert AllWhitespace(ws[1..]) by {
        forall i | 0 <= i < |ws[1..]| ensures IsWhitespace(ws[1..][i]) {
          assert ws[1..][i] == ws[i + 1];
        }
      }
      SkipLeading(ws[1..], s);
    } else {
      assert ws + s == s;
    }
  }

  /** Skipping leading whitespace before more text, or finding there is only
      whitespace. */
  lemma {:induction false} SkipAppend(s: string, u: string)
    ensures SkipWhitespace(s) != [] ==> SkipWhitespace(s + u) == SkipWhitespace(s) + u
    ensures SkipWhitespace(s) == [] ==> AllWhitespace(s)
    decreases |s|
  {
    if |s| > 0 {
      assert (s + u)[0] == s[0];
      if IsWhitespace(s[0]) {
        assert (s + u)[1..] == s[1..] + u;
        SkipAppend(s[1..], u);
        if SkipWhitespace(s) == [] {
          forall i | 0 <= i < |s| ensures IsWhitespace(s[i]) {
            if i > 0 { assert s[i] == s[1..][i - 1]; }
          }
        }
      }
    }
  }

  lemma {:induction false} WordLengthAppend(t: string, ws: string)
    requires AllWhitespace(ws)
    ensures WordLength(t + ws) == WordLength(t)
    decreases |t|
  {
    if |t| > 0 {
      assert (t + ws)[0] == t[0];
      if !IsWhitespace(t[0]) {
        assert (t + ws)[1..] == t[1..] + ws;
        WordLengthAppend(t[1..], ws);
      }
    } else {
      assert t + ws == ws;
    }
  }

  /** Tokenising depends only on the text after its leading whitespace. */
  lemma TokensBySkip(s: string, u: string)
    requires SkipWhitespace(s) == SkipWhitespace(u)
    ensures Tokens(s) == Tokens(u)
  {
  }

  lemma {:induction false} AllWhitespaceAppend(s: string, ws: string)
    requires AllWhitespace(s) && AllWhitespace(ws)
    ensures SkipWhitespace(s + ws) == []
  {
    assert AllWhitespace(s + ws) by {
      forall i | 0 <= i < |s + ws| ensures IsWhitespace((s + ws)[i]) {
        if i < |s| { assert (s + ws)[i] == s[i]; } else { assert (s + ws)[i] == ws[i - |s|]; }
      }
    }
    SkipLeading(s + ws, []);
    assert s + ws + [] == s + ws;
  }

  lemma SliceAppend(t: string, ws: string, n: nat)
    requires n <= |t|
    ensures (t + ws)[..n] == t[..n] && (t + ws)[n..] == t[n..] + ws
  {
  }

  /** Trailing whitespace adds no token. */
  lemma {:induction false} TokensSkipTrailing(s: string, ws: string)
    requires AllWhitespace(ws)
    ensures Tokens(s + ws) == Tokens(s)
    decreases |s|
  {
    var t := SkipWhitespace(s);
    SkipAppend(s, ws);
    if t == [] {
      AllWhitespaceAppend(s, ws);
      TokensBySkip(s + ws, s);
    } else {
      var n := WordLength(t);
      WordLengthAppend(t, ws);
      SliceAppend(t, ws, n);
      TokensSkipTrailing(t[n..], ws);
      TokensStep(s + ws, t + ws);
      TokensStep(s, t);
    }
  }

  lemma {:induction false} WordLengthOfWord(w: string, rest: string)
    requires IsWord(w) && (rest == [] || IsWhitespace(rest[0]))
    ensures WordLength(w + rest) == |w|
    decreases |w|
  {
    assert (w + rest)[0] == w[0];
    assert (w + rest)[1..] == w[1..] + rest;
    if |w| > 1 {
      assert IsWord(w[1..]) by {
        forall i | 0 <= i < |w[1..]| ensures !IsWhitespace(w[1..][i]) {
          assert w[1..][i] == w[i + 1];
        }
      }
      WordLengthOfWord(w[1..], rest);
    } else {
      assert w[1..] + rest == rest;
    }
  }

  /** getTextTrim drops the whitespace around the text. */
  lemma {:induction false} TextTrimPadded(ws1: string, s: string, ws2: string)
    requires AllWhitespace(ws1) && AllWhitespace(ws2)
    ensures TextTrim(ws1 + s + ws2) == TextTrim(s)
  {
    assert ws1 + s + ws2 == ws1 + (s + ws2);
    SkipLeading(ws1, s + ws2);
    TokensBySkip(ws1 + (s + ws2), s + ws2);
    TokensSkipTrailing(s, ws2);
  }

  /** getTextTrim turns a run of whitespace after a word into one space. */
  lemma {:induction false} TextTrimGap(w: string, gap: string, s: string)
    requires IsWord(w) && |gap| > 0 && AllWhitespace(gap) && |Tokens(s)| > 0
    ensures TextTrim(w + gap + s) == w + " " + TextTrim(s)
  {
    var rest := gap + s;
    var x := w + rest;
    assert x == w + gap + s;
    assert x[0] == w[0] && rest[0] == gap[0];
    WordLengthOfWord(w, rest);
    assert x[..|w|] == w && x[|w|..] == rest;
    TokensOfWord(x);
    SkipLeading(gap, s);
    TokensBySkip(rest, s);
    JoinCons(w, Tokens(s));
  }

  /** A word is normal text with one token. */
  lemma {:induction false} WordIsNormal(w: string)
    requires IsWord(w)
    ensures IsNormalText(w) && TextTrim(w) == w && |Tokens(w)| > 0
  {
    NormalTextIsFixed(w);
  }

  /** Two words with any whitespace before, between and after them read
      back as the two words joined by one space. */
  lemma {:induction false} TextTrimTwoWords(pre: string, a: string, gap: string, b: string, post: string)
    requires IsWord(a) && IsWord(b) && |gap| > 0
    requires AllWhitespace(pre) && AllWhitespace(gap) && AllWhitespace(post)
    ensures TextTrim(pre + a + gap + b + post) == a + " " + b
  {
    var mid := a + gap + b;
    TwoWordsJoined(a, gap, b);
    TextTrimPadded(pre, mid, post);
    RegroupMiddle(pre, a, gap, b, post);
  }

  lemma {:induction false} TwoWordsJoined(a: string, gap: string, b: string)
    requires IsWord(a) && IsWord(b) && |gap| > 0 && AllWhitespace(gap)
    ensures TextTrim(a + gap + b) == a + " " + b
  {
    WordIsNormal(b);
    TextTrimGap(a, gap, b);
  }

  lemma RegroupMiddle(pre: string, a: string, gap: string, b: string, post: string)
    ensures pre + a + gap + b + post == pre + (a + gap + b) + post
  {
  }
}
