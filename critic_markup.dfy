/**
 * CriticMarkup rewriter (criticmarkup.com): five global rewrites over the
 * joined document text, applied in the order addition, deletion,
 * substitution, highlight, comment.
 *
 * Four of the grammars have the shape `OPEN value CLOSE` with a lazy,
 * newline-crossing value; they share one scanner, RewriteSpans. The
 * substitution grammar `{~~ORIGINAL~>NEW~~}` restricts what its two values
 * may hold and has a scanner of its own.
 */
module CriticMarkup {
  import opened Strings

  const AdditionOpen := "{++"
  const AdditionClose := "++}"
  const DeletionOpen := "{--"
  const DeletionClose := "--}"
  const HighlightOpen := "{=="
  const HighlightClose := "==}"
  const CommentOpen := "{>>"
  const CommentClose := "<<}"
  const SubstitutionOpen := "{~~"
  const SubstitutionArrow := "~>"
  const SubstitutionClose := "~~}"

  // ---------------------------------------------------------------------
  // Lazy spans: OPEN (.*?) CLOSE with DOTALL
  // ---------------------------------------------------------------------

  /** No opener in `text` is followed (at or after its end) by a closer. */
  ghost predicate NoSpan(text: string, open: string, close: string)
  {
    forall i: nat, j: nat :: OccursAt(text, open, i) && OccursAt(text, close, j) ==> j < i + |open|
  }

  /**
   * The first match of `OPEN (.*?) CLOSE`: the first opener, and the first
   * closer that starts at or after that opener's end. Returns the index of
   * the opener and of the closer.
   */
  function FirstSpan(text: string, open: string, close: string): (r: Option<(nat, nat)>)
    ensures r.Some? ==> r.value.0 + |open| <= r.value.1 && r.value.1 + |close| <= |text|
  {
    match FindFrom(text, open, 0)
    case None => None
    case Some(i) =>
      match FindFrom(text, close, i + |open|)
      case None => None
      case Some(j) => Some((i, j))
  }

  /**
   * The span found starts at the first opener and ends at the first closer
   * after it, and there is none exactly when no opener is followed by a
   * closer.
   */
  lemma {:induction false} FirstSpanFirst(text: string, open: string, close: string)
    ensures var r := FirstSpan(text, open, close);
            && (r.Some? ==> FirstOccurrence(text, open, 0, r.value.0)
                            && FirstOccurrence(text, close, r.value.0 + |open|, r.value.1))
            && (r.None? <==> NoSpan(text, open, close))
  {
    FindFromSpec(text, open, 0);
    match FindFrom(text, open, 0)
    case None =>
    case Some(i) =>
      FindFromSpec(text, close, i + |open|);
      match FindFrom(text, close, i + |open|)
      case None =>
        forall i': nat, j: nat | OccursAt(text, open, i') && OccursAt(text, close, j)
          ensures j < i' + |open|
        {
          assert i <= i';
        }
      case Some(j) =>
        assert !NoSpan(text, open, close) by {
          assert OccursAt(text, open, i) && OccursAt(text, close, j);
        }
  }

  /**
   * `re.sub` of `OPEN (.*?) CLOSE` (DOTALL) with `render` applied to each
   * value: every span, taken left to right, is replaced by the rendering of
   * its value, and the text between spans is copied.
   */
  function RewriteSpans(text: string, open: string, close: string, render: string -> string): string
    requires |close| > 0
    decreases |text|
  {
    match FirstSpan(text, open, close)
    case None => text
    case Some(span) =>
      text[..span.0] + render(text[span.0 + |open|..span.1]) + RewriteSpans(text[span.1 + |close|..], open, close, render)
  }

  /** Text with no complete span is returned unchanged. */
  lemma {:induction false} RewriteSpansNoSpan(text: string, open: string, close: string, render: string -> string)
    requires |close| > 0 && NoSpan(text, open, close)
    ensures RewriteSpans(text, open, close, render) == text
  {
    FirstSpanFirst(text, open, close);
  }

  /** A span cuts the text into what precedes it, the delimited value, and what follows. */
  lemma {:induction false} SpanDelimited(text: string, open: string, close: string, i: nat, j: nat)
    requires OccursAt(text, open, i) && i + |open| <= j && OccursAt(text, close, j)
    ensures text == text[..i] + (open + text[i + |open|..j] + close) + text[j + |close|..]
  {
    assert text[i..i + |open|] == open;
    assert text[j..j + |close|] == close;
    assert text[i..j + |close|] == text[i..i + |open|] + text[i + |open|..j] + text[j..j + |close|];
    assert text == text[..i] + text[i..j + |close|] + text[j + |close|..];
  }

  /** Rendering each value back between its delimiters undoes the rewrite: spans are cut exactly at their delimiters. */
  lemma {:induction false} RewriteSpansRestore(text: string, open: string, close: string, render: string -> string)
    requires |close| > 0
    requires forall v :: render(v) == open + v + close
    ensures RewriteSpans(text, open, close, render) == text
    decreases |text|
  {
    match FirstSpan(text, open, close)
    case None =>
    case Some((i, j)) =>
      var v := text[i + |open|..j];
      var rest := text[j + |close|..];
      RewriteSpansAt(text, open, close, render, i, j);
      RewriteSpansRestore(rest, open, close, render);
      assert render(v) == open + v + close;
      FirstSpanFirst(text, open, close);
      SpanDelimited(text, open, close, i, j);
  }

  lemma {:induction false} FirstSpanAt(text: string, open: string, close: string, i: nat, j: nat)
    requires FirstOccurrence(text, open, 0, i) && FirstOccurrence(text, close, i + |open|, j)
    ensures FirstSpan(text, open, close) == Some((i, j))
  {
    FindFromFirst(text, open, 0, i);
    FindFromFirst(text, close, i + |open|, j);
  }

  /** One step of the rewrite at a known first span. */
  lemma {:induction false} RewriteSpansAt(text: string, open: string, close: string, render: string -> string, i: nat, j: nat)
    requires |close| > 0
    requires FirstSpan(text, open, close) == Some((i, j))
    ensures RewriteSpans(text, open, close, render)
         == text[..i] + render(text[i + |open|..j]) + RewriteSpans(text[j + |close|..], open, close, render)
  {
  }

  /** The opener right after `pre` is the first one when `pre` lacks its first character. */
  lemma {:induction false} OpenerAfter(text: string, pre: string, open: string, value: string, close: string, post: string)
    requires text == pre + open + value + close + post
    requires |open| > 0 && open[0] !in pre
    ensures FirstOccurrence(text, open, 0, |pre|) && text[..|pre|] == pre
  {
    assert text == pre + open + (value + close + post);
    OccursBetween(pre, open, value + close + post);
    forall k: nat | k < |pre| ensures !OccursAt(text, open, k) {
      assert text[k] == pre[k];
      if OccursAt(text, open, k) { OccursAtEnds(text, open, k); }
    }
  }

  /**
   * The closer right after `value` is the first one from `value`'s start
   * when no closer can end inside `value` or inside the closer's own prefix.
   */
  lemma {:induction false} CloserAfter(text: string, pre: string, open: string, value: string, close: string, post: string, i: nat, j: nat)
    requires text == pre + open + value + close + post
    requires i == |pre| + |open| && j == i + |value|
    requires |close| > 0
    requires close[|close| - 1] !in value && close[|close| - 1] !in close[..|close| - 1]
    ensures FirstOccurrence(text, close, i, j)
    ensures text[i..j] == value && text[j + |close|..] == post
  {
    assert text[i..j] == value by {
      assert text == (pre + open) + value + (close + post);
    }
    assert text[j + |close|..] == post by {
      assert text == (pre + open + value + close) + post;
    }
    OccursBetween(pre + open + value, close, post);
    var c := close[|close| - 1];
    forall m | i <= m < j ensures text[m] != c {
      assert text[m] == text[i..j][m - i];
    }
    forall m | j <= m < j + |close| - 1 ensures text[m] != c {
      assert text[j..j + |close|] == close by {
        assert text == (pre + open + value) + close + post;
      }
      assert text[m] == text[j..j + |close|][m - j];
      assert close[..|close| - 1][m - j] == close[m - j];
    }
    forall k: nat | i <= k < j ensures !OccursAt(text, close, k) {
      if OccursAt(text, close, k) {
        OccursAtEnds(text, close, k);
      }
    }
  }

  /** One step of the rewrite, stated with the pieces the search found. */
  lemma {:induction false} SpanPieces(text: string, open: string, close: string, render: string -> string,
                   pre: string, value: string, post: string, i: nat, j: nat)
    requires |close| > 0
    requires FirstOccurrence(text, open, 0, i) && FirstOccurrence(text, close, i + |open|, j)
    requires text[..i] == pre && text[i + |open|..j] == value && text[j + |close|..] == post
    ensures RewriteSpans(text, open, close, render) == pre + render(value) + RewriteSpans(post, open, close, render)
  {
    FirstSpanAt(text, open, close, i, j);
    RewriteSpansAt(text, open, close, render, i, j);
  }

  /**
   * A span surrounded by plain text: when the text before it holds no
   * opener's first character and the value cannot end a closer early,
   * the span is rewritten on its own and the text before it is kept.
   */
  lemma {:induction false} SpanInContext(pre: string, value: string, post: string, open: string, close: string, render: string -> string)
    requires |open| > 0 && |close| > 0
    requires open[0] !in pre
    requires close[|close| - 1] !in value && close[|close| - 1] !in close[..|close| - 1]
    ensures RewriteSpans(pre + open + value + close + post, open, close, render)
         == pre + render(value) + RewriteSpans(post, open, close, render)
  {
    var text := pre + open + value + close + post;
    var i, j := |pre|, |pre| + |open| + |value|;
    OpenerAfter(text, pre, open, value, close, post);
    CloserAfter(text, pre, open, value, close, post, i + |open|, j);
    SpanPieces(text, open, close, render, pre, value, post, i, j);
  }

  /** An opener always begins with '{', so a text without '{' has no span. */
  lemma {:induction false} NoBraceNoSpan(text: string, open: string, close: string)
    requires |open| > 0 && open[0] == '{' && '{' !in text
    ensures NoSpan(text, open, close)
  {
    forall i: nat | OccursAt(text, open, i) ensures false {
      OccursAtEnds(text, open, i);
    }
  }

  // ---------------------------------------------------------------------
  // Addition
  // ---------------------------------------------------------------------

  /** Paragraph-break marker emitted before a value that opens a new paragraph. */
  const LeadingBreak := "\n\n<ins class='critic' break>&nbsp;</ins>\n\n"
  /** Paragraph-break marker for an added empty paragraph or after a value that closes one. */
  const ParagraphBreak := "\n\n<ins class='critic break'>&nbsp;</ins>\n\n"

  /** `value.replace("\n", " ")`: the value on one line, of the same length. */
  function Spaced(value: string): (r: string)
    ensures |r| == |value| && '\n' !in r
    ensures forall k :: 0 <= k < |value| ==> r[k] == if value[k] == '\n' then ' ' else value[k]
  {
    ReplaceCharPointwise(value, '\n', ' ');
    ReplaceAll(value, "\n", " ")
  }

  /** An inserted value wrapped in `<ins>`, newlines collapsed to spaces. */
  function Inserted(value: string): string
  {
    "<ins>" + Spaced(value) + "</ins>"
  }

  /** The four shapes of an addition, told apart by leading and trailing blank lines. */
  datatype AdditionKind = OpensParagraph | ParagraphOnly | ClosesParagraph | WithinParagraph

  /** Which of the four addition cases applies; exactly one does. */
  function Classify(value: string): (k: AdditionKind)
    ensures k == ParagraphOnly <==> value == "\n\n"
    ensures k == OpensParagraph <==> StartsWith(value, "\n\n") && value != "\n\n"
    ensures k == ClosesParagraph <==> !StartsWith(value, "\n\n") && EndsWith(value, "\n\n")
    ensures k == WithinParagraph <==> !StartsWith(value, "\n\n") && !EndsWith(value, "\n\n")
  {
    if StartsWith(value, "\n\n") && value != "\n\n" then OpensParagraph
    else if value == "\n\n" then ParagraphOnly
    else if EndsWith(value, "\n\n") && value != "\n\n" then ClosesParagraph
    else WithinParagraph
  }

  /** Replacement for one `{++value++}`. */
  function AdditionSub(value: string): (r: string)
    ensures Classify(value) == OpensParagraph ==> r == LeadingBreak + Inserted(value)
    ensures Classify(value) == ParagraphOnly ==> r == ParagraphBreak
    ensures Classify(value) == ClosesParagraph ==> r == Inserted(value) + ParagraphBreak
    ensures Classify(value) == WithinParagraph ==> r == Inserted(value)
  {
    if StartsWith(value, "\n\n") && value != "\n\n" then
      LeadingBreak + "<ins>" + Spaced(value) + "</ins>"
    else if value == "\n\n" then
      ParagraphBreak
    else if EndsWith(value, "\n\n") && value != "\n\n" then
      "<ins>" + Spaced(value) + "</ins>" + ParagraphBreak
    else
      "<ins>" + Spaced(value) + "</ins>"
  }

  function Additions(text: string): string
  {
    RewriteSpans(text, AdditionOpen, AdditionClose, AdditionSub)
  }

  lemma {:induction false} AdditionInContext(pre: string, value: string, post: string)
    requires '{' !in pre && '}' !in value
    ensures Additions(pre + "{++" + value + "++}" + post) == pre + AdditionSub(value) + Additions(post)
  {
    SpanInContext(pre, value, post, AdditionOpen, AdditionClose, AdditionSub);
  }

  // ---------------------------------------------------------------------
  // Deletion
  // ---------------------------------------------------------------------

  /** `value.replace("\n\n", "&nbsp")`: blank lines become `&nbsp` (without a semicolon). */
  function Nbsp(value: string): (r: string)
    ensures NoBlankLine(r)
    ensures (forall k: nat :: !OccursAt(value, "\n\n", k)) ==> r == value
  {
    ReplaceBlankLines(value, "&nbsp");
    ReplaceAbsent(value, "\n\n", "&nbsp");
    ReplaceAll(value, "\n\n", "&nbsp")
  }

  /** Replacement for one `{--value--}`. */
  function DeletionSub(value: string): (r: string)
    ensures value == "\n\n" ==> r == "<del>&nbsp;</del>"
    ensures value != "\n\n" ==> r == "<del>" + Nbsp(value) + "</del>" && NoBlankLine(Nbsp(value))
  {
    if value == "\n\n" then "<del>&nbsp;</del>"
    else "<del>" + Nbsp(value) + "</del>"
  }

  function Deletions(text: string): string
  {
    RewriteSpans(text, DeletionOpen, DeletionClose, DeletionSub)
  }

  lemma {:induction false} DeletionInContext(pre: string, value: string, post: string)
    requires '{' !in pre && '}' !in value
    ensures Deletions(pre + "{--" + value + "--}" + post) == pre + DeletionSub(value) + Deletions(post)
  {
    SpanInContext(pre, value, post, DeletionOpen, DeletionClose, DeletionSub);
  }

  // ---------------------------------------------------------------------
  // Highlight and comment
  // ---------------------------------------------------------------------

  function HighlightSub(value: string): string
  {
    "<mark>" + value + "</mark>"
  }

  function Highlights(text: string): string
  {
    RewriteSpans(text, HighlightOpen, HighlightClose, HighlightSub)
  }

  lemma {:induction false} HighlightInContext(pre: string, value: string, post: string)
    requires '{' !in pre && '}' !in value
    ensures Highlights(pre + "{==" + value + "==}" + post) == pre + ("<mark>" + value + "</mark>") + Highlights(post)
  {
    SpanInContext(pre, value, post, HighlightOpen, HighlightClose, HighlightSub);
  }

  function CommentSub(value: string): string
  {
    "<span class=\"critic comment\">" + value + "</span>"
  }

  function Comments(text: string): string
  {
    RewriteSpans(text, CommentOpen, CommentClose, CommentSub)
  }

  lemma {:induction false} CommentInContext(pre: string, value: string, post: string)
    requires '{' !in pre && '}' !in value
    ensures Comments(pre + "{>>" + value + "<<}" + post)
         == pre + ("<span class=\"critic comment\">" + value + "</span>") + Comments(post)
  {
    SpanInContext(pre, value, post, CommentOpen, CommentClose, CommentSub);
  }

  // ---------------------------------------------------------------------
  // Substitution: {~~ORIGINAL~>NEW~~}
  // ---------------------------------------------------------------------

  /** A character ORIGINAL may hold at index k: not '>', and not a '~' directly followed by '>'. */
  predicate OriginalChar(text: string, k: nat)
    requires k < |text|
  {
    text[k] != '>' && !(text[k] == '~' && k + 1 < |text| && text[k + 1] == '>')
  }

  /** End of the greedy run of ORIGINAL characters that starts at k. */
  function OriginalEnd(text: string, k: nat): (e: nat)
    requires k <= |text|
    ensures k <= e <= |text|
    decreases |text| - k
  {
    if k == |text| || !OriginalChar(text, k) then k else OriginalEnd(text, k + 1)
  }

  datatype SubstitutionMatch = SubstitutionMatch(original: string, replacement: string, end: nat)

  /** The substitution that starts at the opener at index i, if the grammar matches there. */
  function MatchSubstitution(text: string, i: nat): (r: Option<SubstitutionMatch>)
    requires i + |SubstitutionOpen| <= |text|
    ensures r.Some? ==> i < r.value.end <= |text|
  {
    var p := i + 3;
    var e := OriginalEnd(text, p);
    if e == p || e == |text| || text[e] != '~' then None
    else
      match FindFrom(text, SubstitutionClose, e + 2)
      case None => None
      case Some(n) =>
        if n == e + 2 then None
        else Some(SubstitutionMatch(text[p..e], text[e + 2..n], n + 3))
  }

  /**
   * A match spans {~~ORIGINAL~>NEW~~} exactly, with a non-empty ORIGINAL
   * free of '>' and a non-empty NEW that holds no closer.
   */
  lemma {:induction false} MatchSubstitutionShape(text: string, i: nat)
    requires OccursAt(text, SubstitutionOpen, i)
    ensures var r := MatchSubstitution(text, i);
            r.Some? ==> (text[i..r.value.end] == SubstitutionOpen + r.value.original + SubstitutionArrow
                                                 + r.value.replacement + SubstitutionClose
                         && |r.value.original| > 0 && '>' !in r.value.original
                         && |r.value.replacement| > 0
                         && forall k: nat :: !OccursAt(r.value.replacement, SubstitutionClose, k))
  {
    var e := OriginalEnd(text, i + 3);
    var r := MatchSubstitution(text, i);
    if r.Some? {
      var n := FindFrom(text, SubstitutionClose, e + 2).value;
      assert r.value == SubstitutionMatch(text[i + 3..e], text[e + 2..n], n + 3);
      ScannedPartsShape(text, i, e, e + 2, n);
    }
  }

  /** The parts at the ends the scanner computes have the shape the grammar demands. */
  lemma {:induction false} ScannedPartsShape(text: string, i: nat, e: nat, s: nat, n: nat)
    requires OccursAt(text, SubstitutionOpen, i) && i + 3 < e
    requires e == OriginalEnd(text, i + 3) && e + 1 < |text| && text[e] == '~'
    requires s == e + 2 && s < n && FindFrom(text, SubstitutionClose, s) == Some(n)
    ensures text[i..n + 3] == SubstitutionOpen + text[i + 3..e] + SubstitutionArrow + text[s..n] + SubstitutionClose
    ensures '>' !in text[i + 3..e]
    ensures forall k: nat :: !OccursAt(text[s..n], SubstitutionClose, k)
  {
    OriginalEndSpec(text, i + 3);
    FindFromSpec(text, SubstitutionClose, s);
    SubstitutionPartsShape(text, i, e, s, n);
  }

  /** The parts between the delimiters the scanner found have the shape the grammar demands. */
  lemma {:induction false} SubstitutionPartsShape(text: string, i: nat, e: nat, s: nat, n: nat)
    requires OccursAt(text, SubstitutionOpen, i) && i + 3 < e
    requires OriginalRun(text, i + 3, e) && e + 1 < |text| && text[e] == '~'
    requires s == e + 2 && s < n && FirstOccurrence(text, SubstitutionClose, s, n)
    ensures text[i..n + 3] == SubstitutionOpen + text[i + 3..e] + SubstitutionArrow + text[s..n] + SubstitutionClose
    ensures '>' !in text[i + 3..e]
    ensures forall k: nat :: !OccursAt(text[s..n], SubstitutionClose, k)
  {
    RunHasNoGt(text, i + 3, e);
    NoCloserBetween(text, s, n);
    SubstitutionDelimited(text, i, e, n);
  }

  /** ORIGINAL, a run of ORIGINAL characters, holds no '>'. */
  lemma {:induction false} RunHasNoGt(text: string, p: nat, e: nat)
    requires p <= e <= |text|
    requires forall m :: p <= m < e ==> OriginalChar(text, m)
    ensures '>' !in text[p..e]
  {
    forall m | 0 <= m < e - p ensures text[p..e][m] != '>' {
      assert text[p..e][m] == text[p + m] && OriginalChar(text, p + m);
    }
  }

  /** Text between two indices with no closer starting in between holds no closer of its own. */
  lemma {:induction false} NoCloserBetween(text: string, s: nat, n: nat)
    requires s <= n <= |text|
    requires forall k :: s <= k < n ==> !OccursAt(text, SubstitutionClose, k)
    ensures forall k: nat :: !OccursAt(text[s..n], SubstitutionClose, k)
  {
    forall k: nat | OccursAt(text[s..n], SubstitutionClose, k) ensures false {
      forall m | 0 <= m < 3 ensures text[s + k + m] == SubstitutionClose[m] {
        assert text[s..n][k + m] == text[s + k + m];
      }
      assert OccursAt(text, SubstitutionClose, s + k);
    }
  }

  /** The delimiters of a match sit where the scanner found them. */
  lemma {:induction false} SubstitutionDelimited(text: string, i: nat, e: nat, n: nat)
    requires OccursAt(text, SubstitutionOpen, i) && i + 3 <= e
    requires e + 1 < |text| && text[e] == '~' && text[e + 1] == '>'
    requires e + 2 <= n && OccursAt(text, SubstitutionClose, n)
    ensures text[i..n + 3] == SubstitutionOpen + text[i + 3..e] + SubstitutionArrow + text[e + 2..n] + SubstitutionClose
  {
    assert text[i..i + 3] == SubstitutionOpen;
    assert text[e..e + 2] == SubstitutionArrow;
    assert text[n..n + 3] == SubstitutionClose;
    assert text[i..n + 3] == text[i..i + 3] + text[i + 3..e] + text[e..e + 2] + text[e + 2..n] + text[n..n + 3];
  }

  /**
   * `re.sub` of the substitution grammar: at each opener, left to right,
   * either the grammar matches and the match is replaced, or the scan moves
   * on by one character.
   */
  function RewriteSubstitutions(text: string, render: (string, string) -> string): string
    decreases |text|
  {
    match FindFrom(text, SubstitutionOpen, 0)
    case None => text
    case Some(i) =>
      match MatchSubstitution(text, i)
      case Some(m) =>
        text[..i] + render(m.original, m.replacement) + RewriteSubstitutions(text[m.end..], render)
      case None =>
        text[..i + 1] + RewriteSubstitutions(text[i + 1..], render)
  }

  /** Text without the opener `{~~` is returned unchanged. */
  lemma {:induction false} RewriteSubstitutionsNoOpener(text: string, render: (string, string) -> string)
    requires forall k: nat :: !OccursAt(text, SubstitutionOpen, k)
    ensures RewriteSubstitutions(text, render) == text
  {
    FindFromSpec(text, SubstitutionOpen, 0);
    assert FindFrom(text, SubstitutionOpen, 0).None?;
  }

  /** Rendering each match back in the grammar's own syntax undoes the rewrite. */
  lemma {:induction false} RewriteSubstitutionsRestore(text: string, render: (string, string) -> string)
    requires forall o, n :: render(o, n) == SubstitutionOpen + o + SubstitutionArrow + n + SubstitutionClose
    ensures RewriteSubstitutions(text, render) == text
    decreases |text|
  {
    match FindFrom(text, SubstitutionOpen, 0)
    case None =>
    case Some(i) =>
      match MatchSubstitution(text, i)
      case Some(m) =>
        FindFromSpec(text, SubstitutionOpen, 0);
        MatchSubstitutionShape(text, i);
        RewriteSubstitutionsRestore(text[m.end..], render);
        assert text == text[..i] + text[i..m.end] + text[m.end..];
      case None =>
        RewriteSubstitutionsRestore(text[i + 1..], render);
        assert text == text[..i + 1] + text[i + 1..];
  }

  function SubstitutionSub(original: string, replacement: string): string
  {
    "<del>" + original + "</del><ins>" + replacement + "</ins>"
  }

  function Substitutions(text: string): string
  {
    RewriteSubstitutions(text, SubstitutionSub)
  }

  /** The match at an opener, given where ORIGINAL and NEW end. */
  lemma {:induction false} MatchSubstitutionAt(text: string, i: nat, e: nat, n: nat)
    requires OccursAt(text, SubstitutionOpen, i)
    requires i + 3 < e && OriginalEnd(text, i + 3) == e && e + 1 < |text| && text[e] == '~'
    requires e + 2 < n && FindFrom(text, SubstitutionClose, e + 2) == Some(n)
    ensures MatchSubstitution(text, i) == Some(SubstitutionMatch(text[i + 3..e], text[e + 2..n], n + 3))
  {
  }

  /** One step of the rewrite at a known first opener where the grammar matches. */
  lemma {:induction false} RewriteSubstitutionsAt(text: string, render: (string, string) -> string, i: nat, m: SubstitutionMatch)
    requires FindFrom(text, SubstitutionOpen, 0) == Some(i)
    requires MatchSubstitution(text, i) == Some(m)
    ensures RewriteSubstitutions(text, render)
         == text[..i] + render(m.original, m.replacement) + RewriteSubstitutions(text[m.end..], render)
  {
  }

  /** [p, e) is the whole greedy run of ORIGINAL characters that starts at p. */
  predicate OriginalRun(text: string, p: nat, e: nat)
  {
    p <= e <= |text|
    && (forall m :: p <= m < e ==> OriginalChar(text, m))
    && (e < |text| ==> !OriginalChar(text, e))
  }

  /** OriginalEnd stops exactly at the end of the greedy run. */
  lemma {:induction false} OriginalEndSpec(text: string, k: nat)
    requires k <= |text|
    ensures OriginalRun(text, k, OriginalEnd(text, k))
    decreases |text| - k
  {
    if k < |text| && OriginalChar(text, k) {
      OriginalEndSpec(text, k + 1);
    }
  }

  /** The greedy run is where OriginalEnd stops. */
  lemma {:induction false} OriginalEndOf(text: string, p: nat, e: nat)
    requires OriginalRun(text, p, e)
    ensures OriginalEnd(text, p) == e
    decreases e - p
  {
    if p < e {
      assert OriginalChar(text, p);
      OriginalEndOf(text, p + 1, e);
    }
  }

  /** ORIGINAL written without '>' or '~' and followed by "~>" is exactly the greedy run. */
  lemma {:induction false} OriginalRunAt(text: string, p: nat, original: string)
    requires p + |original| + 1 < |text| && text[p..p + |original|] == original
    requires '>' !in original && '~' !in original
    requires text[p + |original|] == '~' && text[p + |original| + 1] == '>'
    ensures OriginalRun(text, p, p + |original|)
  {
    var e := p + |original|;
    forall m | p <= m < e ensures OriginalChar(text, m) {
      assert text[m] == text[p..e][m - p];
    }
  }

  /** A closer right after a NEW without '~' is the first closer from NEW's start. */
  lemma {:induction false} SubstitutionCloserAt(text: string, s: nat, replacement: string)
    requires s + |replacement| <= |text| && text[s..s + |replacement|] == replacement
    requires '~' !in replacement
    requires OccursAt(text, SubstitutionClose, s + |replacement|)
    ensures FirstOccurrence(text, SubstitutionClose, s, s + |replacement|)
  {
    var n := s + |replacement|;
    forall k: nat | s <= k < n ensures !OccursAt(text, SubstitutionClose, k) {
      assert text[k] == text[s..n][k - s];
      if OccursAt(text, SubstitutionClose, k) { OccursAtEnds(text, SubstitutionClose, k); }
    }
  }

  /** One step of the substitution rewrite, given where the first opener, ORIGINAL and NEW end. */
  lemma {:induction false} SubstitutionStep(text: string, i: nat, e: nat, n: nat)
    requires FirstOccurrence(text, SubstitutionOpen, 0, i)
    requires i + 3 < e && OriginalRun(text, i + 3, e) && e + 1 < |text| && text[e] == '~'
    requires e + 2 < n && FirstOccurrence(text, SubstitutionClose, e + 2, n)
    ensures n + 3 <= |text|
    ensures Substitutions(text)
         == text[..i] + SubstitutionSub(text[i + 3..e], text[e + 2..n]) + Substitutions(text[n + 3..])
  {
    FindFromFirst(text, SubstitutionOpen, 0, i);
    SubstitutionMatchOf(text, i, e, n);
    SubstitutionFound(text, i, SubstitutionMatch(text[i + 3..e], text[e + 2..n], n + 3));
  }

  /** The grammar matches at an opener followed by a greedy ORIGINAL run, "~>", and NEW up to the first closer. */
  lemma {:induction false} SubstitutionMatchOf(text: string, i: nat, e: nat, n: nat)
    requires OccursAt(text, SubstitutionOpen, i)
    requires i + 3 < e && OriginalRun(text, i + 3, e) && e + 1 < |text| && text[e] == '~'
    requires e + 2 < n && FirstOccurrence(text, SubstitutionClose, e + 2, n)
    ensures MatchSubstitution(text, i) == Some(SubstitutionMatch(text[i + 3..e], text[e + 2..n], n + 3))
  {
    FindFromFirst(text, SubstitutionClose, e + 2, n);
    OriginalEndOf(text, i + 3, e);
    MatchSubstitutionAt(text, i, e, n);
  }

  /** The substitution pass at a first opener where the grammar matches. */
  lemma {:induction false} SubstitutionFound(text: string, i: nat, m: SubstitutionMatch)
    requires FindFrom(text, SubstitutionOpen, 0) == Some(i)
    requires MatchSubstitution(text, i) == Some(m)
    ensures Substitutions(text) == text[..i] + SubstitutionSub(m.original, m.replacement) + Substitutions(text[m.end..])
  {
    RewriteSubstitutionsAt(text, SubstitutionSub, i, m);
  }

  /** In pre{~~ORIGINAL~>NEW~~}post the first opener is the one right after pre. */
  lemma {:induction false} SubstitutionOpenerAt(text: string, pre: string, original: string, replacement: string, post: string)
    requires text == pre + "{~~" + original + "~>" + replacement + "~~}" + post
    requires '{' !in pre
    ensures FirstOccurrence(text, SubstitutionOpen, 0, |pre|)
    ensures text[..|pre|] == pre
  {
    assert text == pre + SubstitutionOpen + (original + "~>" + replacement + "~~}" + post);
    OccursBetween(pre, SubstitutionOpen, original + "~>" + replacement + "~~}" + post);
    forall k: nat | k < |pre| ensures !OccursAt(text, SubstitutionOpen, k) {
      assert text[k] == pre[k];
      if OccursAt(text, SubstitutionOpen, k) { OccursAtEnds(text, SubstitutionOpen, k); }
    }
  }

  /** In pre{~~ORIGINAL~>NEW~~}post the greedy ORIGINAL run starting at p stops right at "~>", at e. */
  lemma {:induction false} SubstitutionOriginalAt(text: string, pre: string, original: string, replacement: string, post: string, p: nat, e: nat)
    requires text == pre + "{~~" + original + "~>" + replacement + "~~}" + post
    requires '>' !in original && '~' !in original
    requires p == |pre| + 3 && e == p + |original|
    ensures e + 1 < |text| && OriginalRun(text, p, e) && text[e] == '~'
    ensures text[p..e] == original
  {
    assert text[p..e] == original && text[e] == '~' && text[e + 1] == '>' by {
      assert text == (pre + "{~~") + original + ("~>" + replacement + "~~}" + post);
    }
    OriginalRunAt(text, p, original);
  }

  /** In pre{~~ORIGINAL~>NEW~~}post the first closer from NEW's start s is the one right after NEW, at n. */
  lemma {:induction false} SubstitutionReplacementAt(text: string, pre: string, original: string, replacement: string, post: string, s: nat, n: nat)
    requires text == pre + "{~~" + original + "~>" + replacement + "~~}" + post
    requires '~' !in replacement
    requires s == |pre| + 3 + |original| + 2 && n == s + |replacement|
    ensures n + 3 <= |text| && FirstOccurrence(text, SubstitutionClose, s, n)
    ensures text[s..n] == replacement && text[n + 3..] == post
  {
    var front := pre + "{~~" + original + "~>";
    assert text == front + replacement + "~~}" + post;
    assert text[s..n] == replacement by {
      assert text == front + replacement + ("~~}" + post);
    }
    assert text[n + 3..] == post by {
      assert text == (front + replacement + "~~}") + post;
    }
    assert OccursAt(text, SubstitutionClose, n) by {
      assert text == (front + replacement) + SubstitutionClose + post;
      OccursBetween(front + replacement, SubstitutionClose, post);
    }
    SubstitutionCloserAt(text, s, replacement);
  }

  /** One step of the rewrite, stated with the pieces the search found. */
  lemma {:induction false} SubstitutionPieces(text: string, pre: string, original: string, replacement: string, post: string,
                           i: nat, e: nat, n: nat)
    requires FirstOccurrence(text, SubstitutionOpen, 0, i)
    requires i + 3 < e && OriginalRun(text, i + 3, e) && e + 1 < |text| && text[e] == '~'
    requires e + 2 < n && FirstOccurrence(text, SubstitutionClose, e + 2, n) && n + 3 <= |text|
    requires text[..i] == pre && text[i + 3..e] == original && text[e + 2..n] == replacement && text[n + 3..] == post
    ensures Substitutions(text) == pre + SubstitutionSub(original, replacement) + Substitutions(post)
  {
    SubstitutionStep(text, i, e, n);
  }

  /** The rewrite of pre{~~ORIGINAL~>NEW~~}post renders that one substitution and goes on after it. */
  lemma {:induction false} SubstitutionRewriteAt(text: string, pre: string, original: string, replacement: string, post: string)
    requires text == pre + "{~~" + original + "~>" + replacement + "~~}" + post
    requires '{' !in pre
    requires |original| > 0 && '>' !in original && '~' !in original
    requires |replacement| > 0 && '~' !in replacement
    ensures Substitutions(text) == pre + SubstitutionSub(original, replacement) + Substitutions(post)
  {
    var i, e := |pre|, |pre| + 3 + |original|;
    var n := e + 2 + |replacement|;
    SubstitutionOpenerAt(text, pre, original, replacement, post);
    SubstitutionOriginalAt(text, pre, original, replacement, post, i + 3, e);
    SubstitutionReplacementAt(text, pre, original, replacement, post, e + 2, n);
    SubstitutionPieces(text, pre, original, replacement, post, i, e, n);
  }

  lemma {:induction false} SubstitutionInContext(pre: string, original: string, replacement: string, post: string)
    requires '{' !in pre
    requires |original| > 0 && '>' !in original && '~' !in original
    requires |replacement| > 0 && '~' !in replacement
    ensures Substitutions(pre + "{~~" + original + "~>" + replacement + "~~}" + post)
         == pre + ("<del>" + original + "</del><ins>" + replacement + "</ins>") + Substitutions(post)
  {
    SubstitutionRewriteAt(pre + "{~~" + original + "~>" + replacement + "~~}" + post, pre, original, replacement, post);
  }

  // ---------------------------------------------------------------------
  // The five passes in order
  // ---------------------------------------------------------------------

  /** The whole rewrite of the joined text: addition, deletion, substitution, highlight, comment. */
  function Convert(text: string): string
  {
    Comments(Highlights(Substitutions(Deletions(Additions(text)))))
  }

  /** Each pass leaves a text without '{' untouched: no opener can occur in it. */
  lemma {:induction false} PassesPlain(text: string)
    requires '{' !in text
    ensures Additions(text) == text && Deletions(text) == text && Substitutions(text) == text
    ensures Highlights(text) == text && Comments(text) == text
  {
    NoBraceNoSpan(text, AdditionOpen, AdditionClose);
    RewriteSpansNoSpan(text, AdditionOpen, AdditionClose, AdditionSub);
    NoBraceNoSpan(text, DeletionOpen, DeletionClose);
    RewriteSpansNoSpan(text, DeletionOpen, DeletionClose, DeletionSub);
    NoBraceNoSpan(text, HighlightOpen, HighlightClose);
    RewriteSpansNoSpan(text, HighlightOpen, HighlightClose, HighlightSub);
    NoBraceNoSpan(text, CommentOpen, CommentClose);
    RewriteSpansNoSpan(text, CommentOpen, CommentClose, CommentSub);
    forall k: nat ensures !OccursAt(text, SubstitutionOpen, k) {
      if OccursAt(text, SubstitutionOpen, k) { OccursAtEnds(text, SubstitutionOpen, k); }
    }
    RewriteSubstitutionsNoOpener(text, SubstitutionSub);
  }

  /** A text without '{' comes out of the whole rewrite unchanged. */
  lemma {:induction false} ConvertPlain(text: string)
    requires '{' !in text
    ensures Convert(text) == text
  {
    PassesPlain(text);
  }

  /** One preprocessor's `run`: join the lines with '\n', rewrite, split again. */
  function RunPass(lines: seq<string>, pass: string -> string): seq<string>
  {
    SplitLines(pass(JoinLines(lines)))
  }

  /** The five preprocessors registered one after the other. */
  function ConvertLines(lines: seq<string>): seq<string>
  {
    RunPass(RunPass(RunPass(RunPass(RunPass(lines, Additions), Deletions), Substitutions), Highlights), Comments)
  }

  /**
   * Lines without any '{' come out of all five passes unchanged, provided
   * the last one is not empty (each join/split round trip drops a trailing
   * empty line).
   */
  lemma {:induction false} ConvertLinesPlain(lines: seq<string>)
    requires CleanLines(lines)
    requires forall k :: 0 <= k < |lines| ==> '{' !in lines[k]
    ensures ConvertLines(lines) == lines
  {
    JoinLinesWithout(lines, '{');
    PassesPlain(JoinLines(lines));
    SplitLinesJoin(lines);
    assert RunPass(lines, Additions) == lines;
    assert RunPass(lines, Deletions) == lines;
    assert RunPass(lines, Substitutions) == lines;
    assert RunPass(lines, Highlights) == lines;
    assert RunPass(lines, Comments) == lines;
  }
}
