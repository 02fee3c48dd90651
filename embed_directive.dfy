/**
 * The smart-embed directive grammar
 *
 *   @protocol:[title](url "{{attributes}}")
 *
 * recognised at the start of a line, with a hand-written scanner for the
 * regular expression the preprocessor matches, and the proof that a
 * directive written out reads back as itself.
 */
module EmbedDirective {
  import opened Strings

  predicate NotColon(c: char)
  {
    c != ':'
  }

  predicate NotBracket(c: char)
  {
    c != '[' && c != ']'
  }

  /** The quotes that may delimit the attribute group of a directive. */
  predicate IsQuote(c: char)
  {
    c == '"' || c == '\''
  }

  // ---------------------------------------------------------------------
  // The directive grammar
  //   \s*@([^:]+):(?<!\!)\[([^\[\]]*)\]\(<?(.*?)>?\s*((['"])(.*?)\5)?\)
  // matched at the start of the line.
  // ---------------------------------------------------------------------

  /** The groups `_extract` reads: protocol (1), title (2), url (3) and the quoted attributes (6). */
  datatype Directive = Directive(protocol: string, title: string, url: string, attributes: Option<string>)

  /**
   * Whether `>? \s* ((['"])(.*?)\5)? \)` matches at t, and if so the value
   * of its quoted group (None when the optional group is skipped). An
   * optional '>' is taken first, then all whitespace; a quote must be closed
   * by the same quote directly followed by ')'.
   */
  function Tail(line: string, t: nat): Option<Option<string>>
    requires t <= |line|
  {
    var t' := if t < |line| && line[t] == '>' then t + 1 else t;
    var w := RunEnd(line, t', IsSpace);
    if w < |line| && IsQuote(line[w]) then
      match CloseQuote(line, line[w], w + 1)
      case Some(k) => Some(Some(line[w + 1..k]))
      case None => None
    else if w < |line| && line[w] == ')' then Some(None)
    else None
  }

  /**
   * The lazy `(.*?)` of a quoted group: the first quote q directly followed
   * by ')', provided no '\n' (which '.' does not match) comes before it.
   */
  function CloseQuote(line: string, q: char, i: nat): (r: Option<nat>)
    requires i <= |line|
    ensures r.Some? ==> i <= r.value && r.value + 2 <= |line|
    decreases |line| - i
  {
    if i + 1 >= |line| || line[i] == '\n' then None
    else if line[i] == q && line[i + 1] == ')' then Some(i)
    else CloseQuote(line, q, i + 1)
  }

  /** The group CloseQuote closes holds no '\n' and no earlier closing pair. */
  lemma {:induction false} CloseQuoteSpec(line: string, q: char, i: nat)
    requires i <= |line|
    ensures var r := CloseQuote(line, q, i);
            r.Some? ==> && line[r.value] == q && line[r.value + 1] == ')'
                        && forall k :: i <= k < r.value ==> NotNewline(line[k]) && !(line[k] == q && line[k + 1] == ')')
    decreases |line| - i
  {
    if i + 1 < |line| && line[i] != '\n' && !(line[i] == q && line[i + 1] == ')') {
      CloseQuoteSpec(line, q, i + 1);
    }
  }

  /** A closing pair at e, with neither '\n' nor q between i and e, is the one CloseQuote finds. */
  lemma {:induction false} CloseQuoteOf(line: string, q: char, i: nat, e: nat)
    requires q != '\n' && i <= e && e + 1 < |line| && line[e] == q && line[e + 1] == ')'
    requires forall k :: i <= k < e ==> line[k] != '\n' && !(line[k] == q && line[k + 1] == ')')
    ensures CloseQuote(line, q, i) == Some(e)
    decreases e - i
  {
    if i < e {
      assert line[i] != '\n' && !(line[i] == q && line[i + 1] == ')');
      CloseQuoteOf(line, q, i + 1, e);
    }
  }

  /**
   * The lazy url `(.*?)` ends at the first position from which the tail
   * matches; it cannot take a '\n', which '.' does not match.
   */
  function FirstTail(line: string, t: nat): (r: Option<nat>)
    requires t <= |line|
    ensures r.Some? ==> t <= r.value <= |line| && Tail(line, r.value).Some?
    decreases |line| - t
  {
    if Tail(line, t).Some? then Some(t)
    else if t == |line| || line[t] == '\n' then None
    else FirstTail(line, t + 1)
  }

  /**
   * Where `\s*@([^:]+):(?<!\!)\[([^\[\]]*)\]\(` matches at the start of
   * `line`: the index of '@', of the ':' ending the protocol and of the ']'
   * ending the title. The lookbehind always holds, since it follows the ':'.
   */
  function Head(line: string): (r: Option<(nat, nat, nat)>)
    ensures r.Some? ==> r.value.0 + 1 < r.value.1 && r.value.1 + 2 <= r.value.2 && r.value.2 + 2 <= |line|
  {
    var w := RunEnd(line, 0, IsSpace);
    if w == |line| || line[w] != '@' then None
    else
      var c := RunEnd(line, w + 1, NotColon);
      if c == w + 1 || c + 1 >= |line| || line[c + 1] != '[' then None
      else
        var b := RunEnd(line, c + 2, NotBracket);
        if b + 1 >= |line| || line[b] != ']' || line[b + 1] != '(' then None
        else Some((w, c, b))
  }

  /** The head found: blanks up to '@', a protocol without ':' up to ':', '[', a title without brackets, "](". */
  predicate HeadAt(line: string, w: nat, c: nat, b: nat)
  {
    && w + 1 < c && c + 2 <= b && b + 2 <= |line|
    && MaximalRun(line, 0, w, IsSpace) && line[w] == '@'
    && MaximalRun(line, w + 1, c, NotColon) && line[c + 1] == '['
    && MaximalRun(line, c + 2, b, NotBracket) && line[b] == ']' && line[b + 1] == '('
  }

  /** Head finds exactly the head the grammar describes. */
  lemma {:induction false} HeadSpec(line: string)
    ensures Head(line).Some? ==> HeadAt(line, Head(line).value.0, Head(line).value.1, Head(line).value.2)
  {
    RunEndSpec(line, 0, IsSpace);
    var w := RunEnd(line, 0, IsSpace);
    if w < |line| {
      RunEndSpec(line, w + 1, NotColon);
      var c := RunEnd(line, w + 1, NotColon);
      if c + 2 <= |line| {
        RunEndSpec(line, c + 2, NotBracket);
      }
    }
  }

  lemma {:induction false} HeadOf(line: string, w: nat, c: nat, b: nat)
    requires HeadAt(line, w, c, b)
    ensures Head(line) == Some((w, c, b))
  {
    RunEndOf(line, 0, w, IsSpace);
    RunEndOf(line, w + 1, c, NotColon);
    RunEndOf(line, c + 2, b, NotBracket);
  }

  /** The directive at the start of `line`, if the grammar matches there. */
  function ParseDirective(line: string): Option<Directive>
  {
    match Head(line)
    case None => None
    case Some((w, c, b)) =>
      match UrlAndTail(line, UrlStart(line, b + 2))
      case None => None
      case Some((url, attributes)) => Some(Directive(line[w + 1..c], line[c + 2..b], url, attributes))
  }

  /**
   * Where the url starts: past an opening '<', when there is one. If no url
   * works after it, none works with it either, as the tail cannot match at '<'.
   */
  function UrlStart(line: string, s: nat): (u: nat)
    requires s <= |line|
    ensures s <= u <= |line|
  {
    if s < |line| && line[s] == '<' then s + 1 else s
  }

  /** The url from u up to the first tail match, and the tail's quoted group. */
  function UrlAndTail(line: string, u: nat): Option<(string, Option<string>)>
    requires u <= |line|
  {
    match FirstTail(line, u)
    case None => None
    case Some(t) => Some((line[u..t], Tail(line, t).value))
  }

  /** A recognised directive follows blanks and an '@'; its protocol is non-empty without ':' and its title holds no bracket. */
  lemma {:induction false} ParseDirectiveShape(line: string)
    ensures var r := ParseDirective(line);
            r.Some? ==> (&& |r.value.protocol| > 0 && ':' !in r.value.protocol
                         && '[' !in r.value.title && ']' !in r.value.title
                         && var w := RunEnd(line, 0, IsSpace);
                            w < |line| && line[w] == '@' && MaximalRun(line, 0, w, IsSpace))
  {
    HeadSpec(line);
    if ParseDirective(line).Some? {
      var (w, c, b) := Head(line).value;
      RunEndOf(line, 0, w, IsSpace);
      var d := ParseDirective(line).value;
      assert d.protocol == line[w + 1..c] && d.title == line[c + 2..b];
      forall k | 0 <= k < |d.protocol| ensures d.protocol[k] != ':' {
        assert d.protocol[k] == line[w + 1 + k];
      }
      forall k | 0 <= k < |d.title| ensures NotBracket(d.title[k]) {
        assert d.title[k] == line[c + 2 + k];
      }
    }
  }

  /** Neither the url nor the quoted attributes of a recognised directive hold a '\n', which '.' does not match. */
  lemma {:induction false} ParseDirectiveOneLine(line: string)
    ensures var r := ParseDirective(line);
            r.Some? ==> '\n' !in r.value.url && (r.value.attributes.Some? ==> '\n' !in r.value.attributes.value)
  {
    match Head(line)
    case None =>
    case Some((w, c, b)) =>
      UrlOneLine(line, UrlStart(line, b + 2));
  }

  /** Neither the url the lazy `(.*?)` takes nor the quoted group holds a '\n'. */
  lemma {:induction false} UrlOneLine(line: string, u: nat)
    requires u <= |line|
    ensures var r := UrlAndTail(line, u);
            r.Some? ==> '\n' !in r.value.0 && (r.value.1.Some? ==> '\n' !in r.value.1.value)
  {
    if FirstTail(line, u).Some? {
      var t := FirstTail(line, u).value;
      FirstTailOneLine(line, u);
      var url := line[u..t];
      forall k | 0 <= k < |url| ensures url[k] != '\n' {
        assert url[k] == line[u + k];
      }
      TailOneLine(line, t);
    }
  }

  /** The quoted group of the tail holds no '\n'. */
  lemma {:induction false} TailOneLine(line: string, t: nat)
    requires t <= |line|
    ensures Tail(line, t).Some? && Tail(line, t).value.Some? ==> '\n' !in Tail(line, t).value.value
  {
    var t' := if t < |line| && line[t] == '>' then t + 1 else t;
    var w := RunEnd(line, t', IsSpace);
    if w < |line| && IsQuote(line[w]) {
      var k := CloseQuote(line, line[w], w + 1);
      if k.Some? {
        CloseQuoteSpec(line, line[w], w + 1);
        var a := line[w + 1..k.value];
        forall m | 0 <= m < |a| ensures a[m] != '\n' {
          assert a[m] == line[w + 1 + m];
        }
      }
    }
  }

  /** A url broken by a '\n' is no directive: `@pdf:[t](a` followed by a new line and `b)`. */
  lemma {:induction false} UrlStopsAtNewline()
    ensures ParseDirective("@pdf:[t](a\nb)") == None
  {
    var line := "@pdf:[t](a\nb)";
    RunEndOf(line, 0, 0, IsSpace);
    RunEndOf(line, 1, 4, NotColon);
    RunEndOf(line, 6, 7, NotBracket);
    assert Head(line) == Some((0, 4, 7));
    RunEndOf(line, 9, 9, IsSpace);
    RunEndOf(line, 10, 11, IsSpace);
    assert Tail(line, 9).None? && Tail(line, 10).None?;
    FirstTailStops(line, 9, 10);
  }

  /** Characters a url may hold so that the tail cannot match inside it. */
  predicate UrlChar(c: char)
  {
    !IsSpace(c) && !IsQuote(c) && c != '>' && c != ')'
  }

  predicate Blank(s: string)
  {
    forall k :: 0 <= k < |s| ==> IsSpace(s[k])
  }

  /** The closing part of a written directive: `)` or ` "attributes")`. */
  function TailText(attributes: Option<string>): string
  {
    match attributes
    case None => ")"
    case Some(a) => " \"" + a + "\")"
  }

  /** A directive written out after some indentation, followed by the rest of the line. */
  function Written(indent: string, d: Directive, rest: string): string
  {
    indent + ("@" + (d.protocol + (":[" + (d.title + ("](" + (d.url + (TailText(d.attributes) + rest)))))))
  }

  /** Directives whose written form reads back as themselves. */
  predicate Writable(d: Directive)
  {
    && |d.protocol| > 0 && ':' !in d.protocol
    && '[' !in d.title && ']' !in d.title
    && (forall k :: 0 <= k < |d.url| ==> UrlChar(d.url[k]))
    && (|d.url| > 0 ==> d.url[0] != '<')
    && (d.attributes.Some? ==> '"' !in d.attributes.value && '\n' !in d.attributes.value)
  }

  /** The tail cannot match at a url character. */
  lemma TailAtUrlChar(line: string, t: nat)
    requires t < |line| && UrlChar(line[t])
    ensures Tail(line, t).None?
  {
    RunEndOf(line, t, t, IsSpace);
  }

  /**
   * Blanks, a quote q, a text a, the same quote and ')' make a tail whose
   * attribute group is a, when a holds no '\n' and no q directly followed
   * by ')'.
   */
  lemma {:induction false} TailAtQuoted(line: string, t: nat, s: nat, q: char, a: string)
    requires t <= s && s + |a| + 3 <= |line|
    requires forall k :: t <= k < s ==> IsSpace(line[k])
    requires IsQuote(q) && line[s] == q && line[s + 1..s + 1 + |a|] == a
    requires line[s + 1 + |a|] == q && line[s + 2 + |a|] == ')'
    requires '\n' !in a && forall k :: 0 <= k < |a| - 1 ==> !(a[k] == q && a[k + 1] == ')')
    ensures Tail(line, t) == Some(Some(a))
  {
    var e := s + 1 + |a|;
    assert MaximalRun(line, t, s, IsSpace);
    RunEndOf(line, t, s, IsSpace);
    forall k | s + 1 <= k < e ensures line[k] != '\n' && !(line[k] == q && line[k + 1] == ')') {
      assert line[k] == a[k - s - 1];
      if k + 1 < e {
        assert line[k + 1] == a[k - s];
      }
    }
    CloseQuoteOf(line, q, s + 1, e);
  }

  /** The tail matches where the written closing part starts. */
  lemma {:induction false} TailAtText(line: string, t: nat, attributes: Option<string>, rest: string)
    requires t <= |line| && line[t..] == TailText(attributes) + rest
    requires attributes.Some? ==> '"' !in attributes.value && '\n' !in attributes.value
    ensures Tail(line, t) == Some(attributes)
  {
    match attributes
    case None =>
      assert line[t] == line[t..][0];
      RunEndOf(line, t, t, IsSpace);
    case Some(a) =>
      var e := t + 2 + |a|;
      assert line[t..] == " \"" + (a + ("\")" + rest));
      PairPiece(line, t, " \"", a + ("\")" + rest));
      Peel(line, t + 2, e, a, "\")" + rest);
      PairPiece(line, e, "\")", rest);
      TailAtQuoted(line, t, t + 1, '"', a);
  }

  /** The url the lazy `(.*?)` takes holds no '\n'. */
  lemma {:induction false} FirstTailOneLine(line: string, t: nat)
    requires t <= |line|
    ensures FirstTail(line, t).Some? ==> forall k :: t <= k < FirstTail(line, t).value ==> NotNewline(line[k])
    decreases |line| - t
  {
    if Tail(line, t).None? && t < |line| && line[t] != '\n' {
      FirstTailOneLine(line, t + 1);
    }
  }

  /** A '\n' reached before the tail matches ends the search: the url cannot run past it. */
  lemma {:induction false} FirstTailStops(line: string, u: nat, n: nat)
    requires u <= n < |line| && line[n] == '\n'
    requires forall k :: u <= k <= n ==> Tail(line, k).None?
    ensures FirstTail(line, u).None?
    decreases n - u
  {
    if u < n {
      assert line[u] != '\n' ==> FirstTail(line, u) == FirstTail(line, u + 1);
      FirstTailStops(line, u + 1, n);
    }
  }

  /** The first tail match is the first position from which the tail matches, with no '\n' before it. */
  lemma {:induction false} FirstTailOf(line: string, u: nat, t: nat)
    requires u <= t <= |line|
    requires forall k :: u <= k < t ==> Tail(line, k).None? && line[k] != '\n'
    requires Tail(line, t).Some?
    ensures FirstTail(line, u) == Some(t)
    decreases t - u
  {
    if u < t {
      FirstTailOf(line, u + 1, t);
    }
  }

  /** A piece whose characters all satisfy `p`, followed by one that does not, is a maximal run. */
  lemma {:induction false} RunPiece(line: string, i: nat, j: nat, a: string, rest: string, p: char -> bool)
    requires i <= |line| && line[i..] == a + rest && j == i + |a|
    requires forall k :: 0 <= k < |a| ==> p(a[k])
    requires rest != [] && !p(rest[0])
    ensures j < |line| && MaximalRun(line, i, j, p) && line[i..j] == a && line[j..] == rest
  {
    Peel(line, i, j, a, rest);
    forall k | i <= k < j ensures p(line[k]) {
      assert line[k] == line[i..j][k - i];
    }
    assert line[j] == line[j..][0];
  }

  /** Two literal characters at the front of a suffix. */
  lemma {:induction false} PairPiece(line: string, i: nat, lit: string, rest: string)
    requires |lit| == 2 && i <= |line| && line[i..] == lit + rest
    ensures i + 2 <= |line| && line[i] == lit[0] && line[i + 1] == lit[1] && line[i + 2..] == rest
  {
    Peel(line, i, i + 2, lit, rest);
    assert line[i] == line[i..i + 2][0] && line[i + 1] == line[i..i + 2][1];
  }

  /** The url of a written directive ends where the tail first matches. */
  lemma {:induction false} UrlEnd(line: string, d: Directive, rest: string, s: nat, t: nat)
    requires Writable(d)
    requires s <= t <= |line| && t == s + |d.url| && line[s..t] == d.url && line[t..] == TailText(d.attributes) + rest
    ensures s < |line| && line[s] != '<'
    ensures UrlAndTail(line, s) == Some((d.url, d.attributes))
  {
    TailAtText(line, t, d.attributes, rest);
    forall k | s <= k < t ensures Tail(line, k).None? && line[k] != '\n' {
      assert line[k] == d.url[k - s];
      TailAtUrlChar(line, k);
    }
    FirstTailOf(line, s, t);
    if s < t {
      assert line[s] == d.url[0];
    } else {
      assert line[t] == line[t..][0];
    }
  }

  /** A line whose head, url and tail sit at known places parses as the directive made of them. */
  lemma {:induction false} ParseAt(line: string, d: Directive, w: nat, c: nat, b: nat)
    requires Head(line) == Some((w, c, b))
    requires b + 2 <= |line| && UrlAndTail(line, UrlStart(line, b + 2)) == Some((d.url, d.attributes))
    requires line[w + 1..c] == d.protocol && line[c + 2..b] == d.title
    ensures ParseDirective(line) == Some(d)
  {
  }

  /** The pieces of a directive sit at w (the '@'), c (the ':'), b (the ']') and t (the url's end). */
  predicate LaidOut(line: string, d: Directive, rest: string, w: nat, c: nat, b: nat, t: nat)
  {
    && HeadAt(line, w, c, b) && b + 2 <= t <= |line| && t == b + 2 + |d.url|
    && line[w + 1..c] == d.protocol && line[c + 2..b] == d.title && line[b + 2..t] == d.url
    && line[t..] == TailText(d.attributes) + rest
  }

  /** A laid-out line parses as its directive. */
  lemma {:induction false} ParseLaidOut(line: string, d: Directive, rest: string, w: nat, c: nat, b: nat, t: nat)
    requires Writable(d) && LaidOut(line, d, rest, w, c, b, t)
    ensures ParseDirective(line) == Some(d)
  {
    HeadOf(line, w, c, b);
    UrlEnd(line, d, rest, b + 2, t);
    assert UrlStart(line, b + 2) == b + 2;
    ParseAt(line, d, w, c, b);
  }

  /** The indentation, '@', protocol and ":[" of a written directive. */
  lemma {:induction false} FrontPieces(line: string, indent: string, protocol: string, x: string, w: nat, c: nat)
    requires Blank(indent) && |protocol| > 0 && ':' !in protocol
    requires line[0..] == indent + ("@" + (protocol + (":[" + x)))
    requires w == |indent| && c == w + 1 + |protocol|
    ensures w + 1 < c && c + 2 <= |line|
    ensures MaximalRun(line, 0, w, IsSpace) && line[w] == '@'
    ensures MaximalRun(line, w + 1, c, NotColon) && line[w + 1..c] == protocol && line[c + 1] == '['
    ensures line[c + 2..] == x
  {
    RunPiece(line, 0, w, indent, "@" + (protocol + (":[" + x)), IsSpace);
    Peel(line, w, w + 1, "@", protocol + (":[" + x));
    assert line[w] == line[w..w + 1][0];
    RunPiece(line, w + 1, c, protocol, ":[" + x, NotColon);
    PairPiece(line, c, ":[", x);
  }

  /** The title and "](" of a written directive. */
  lemma {:induction false} TitlePieces(line: string, title: string, x: string, c: nat, b: nat)
    requires '[' !in title && ']' !in title
    requires c + 2 <= |line| && line[c + 2..] == title + ("](" + x) && b == c + 2 + |title|
    ensures b + 2 <= |line|
    ensures MaximalRun(line, c + 2, b, NotBracket) && line[c + 2..b] == title
    ensures line[b] == ']' && line[b + 1] == '(' && line[b + 2..] == x
  {
    RunPiece(line, c + 2, b, title, "](" + x, NotBracket);
    PairPiece(line, b, "](", x);
  }

  /** The facts the pieces lemmas establish make up a laid-out line. */
  lemma {:induction false} LaidOutOf(line: string, d: Directive, rest: string, w: nat, c: nat, b: nat, t: nat)
    requires w + 1 < c && c + 2 <= b && b + 2 <= t <= |line| && t == b + 2 + |d.url|
    requires MaximalRun(line, 0, w, IsSpace) && line[w] == '@'
    requires MaximalRun(line, w + 1, c, NotColon) && line[w + 1..c] == d.protocol && line[c + 1] == '['
    requires MaximalRun(line, c + 2, b, NotBracket) && line[c + 2..b] == d.title
    requires line[b] == ']' && line[b + 1] == '('
    requires line[b + 2..t] == d.url && line[t..] == TailText(d.attributes) + rest
    ensures LaidOut(line, d, rest, w, c, b, t)
  {
  }

  /** Past its ":[", a written directive lays out its title, url and closing part. */
  lemma {:induction false} RestLayout(line: string, d: Directive, rest: string, w: nat, c: nat, b: nat, t: nat)
    requires '[' !in d.title && ']' !in d.title
    requires b == c + 2 + |d.title| && t == b + 2 + |d.url|
    requires w + 1 < c && c + 2 <= |line|
    requires MaximalRun(line, 0, w, IsSpace) && line[w] == '@'
    requires MaximalRun(line, w + 1, c, NotColon) && line[w + 1..c] == d.protocol && line[c + 1] == '['
    requires line[c + 2..] == d.title + ("](" + (d.url + (TailText(d.attributes) + rest)))
    ensures LaidOut(line, d, rest, w, c, b, t)
  {
    TitlePieces(line, d.title, d.url + (TailText(d.attributes) + rest), c, b);
    Peel(line, b + 2, t, d.url, TailText(d.attributes) + rest);
    LaidOutOf(line, d, rest, w, c, b, t);
  }

  /** Where the pieces of a written directive sit in the line. */
  lemma {:induction false} WrittenLayout(line: string, indent: string, d: Directive, rest: string,
                                         w: nat, c: nat, b: nat, t: nat)
    requires Blank(indent) && Writable(d) && line == Written(indent, d, rest)
    requires w == |indent| && c == w + 1 + |d.protocol| && b == c + 2 + |d.title| && t == b + 2 + |d.url|
    ensures LaidOut(line, d, rest, w, c, b, t)
  {
    assert line[0..] == line;
    FrontPieces(line, indent, d.protocol, d.title + ("](" + (d.url + (TailText(d.attributes) + rest))), w, c);
    RestLayout(line, d, rest, w, c, b, t);
  }

  /** Writing a directive out and parsing the line gives the directive back, whatever follows it. */
  lemma {:induction false} ParseWritten(indent: string, d: Directive, rest: string)
    requires Blank(indent) && Writable(d)
    ensures ParseDirective(Written(indent, d, rest)) == Some(d)
  {
    var line := Written(indent, d, rest);
    var w := |indent|;
    var c := w + 1 + |d.protocol|;
    var b := c + 2 + |d.title|;
    var t := b + 2 + |d.url|;
    WrittenLayout(line, indent, d, rest, w, c, b, t);
    ParseLaidOut(line, d, rest, w, c, b, t);
  }
}
