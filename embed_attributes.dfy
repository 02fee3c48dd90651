/**
 * The attribute segment of a smart-embed directive, `"{{#id key='a value' key=value word ...}}"`.
 *
 * The segment's block runs from the first "{{" that a "}}" follows on the
 * same line to the last "}}" of that line; its interior is cut into tokens, and the tokens are folded into a map: `#x` sets `id`,
 * `key='v'` and `key=v` set `key`, and a bare word is appended to the list
 * kept under `class`, which is finally joined with single spaces.
 */
module EmbedAttributes {
  import opened Strings

  /** The Python exceptions the preprocessor can raise on its own input. */
  datatype Failure = IndexError | AttributeError | KeyError

  datatype Result<+T> = Ok(value: T) | Err(failure: Failure)

  // ---------------------------------------------------------------------
  // The block: (\{\{(.+)\}\}) searched for in the segment
  // ---------------------------------------------------------------------

  /** The interior of the block: a search for "{{" followed by at least one character and "}}". */
  function AttributeBlock(segment: string): Option<string>
  {
    BlockFrom(segment, 0)
  }

  /**
   * The search from p on. At the next "{{" the greedy `.+` runs up to the
   * first '\n' (which '.' does not match) and gives back characters until
   * "}}" follows; when no interior of at least one character is left, the
   * search resumes one past that "{{".
   */
  function BlockFrom(segment: string, p: nat): Option<string>
    decreases |segment| - p
  {
    match FindFrom(segment, "{{", p)
    case None => None
    case Some(i) =>
      var n := RunEnd(segment, i + 2, NotNewline);
      match FindLastBelow(segment, "}}", n + 1)
      case Some(j) => if i + 3 <= j then Some(segment[i + 2..j]) else BlockFrom(segment, i + 1)
      case None => BlockFrom(segment, i + 1)
  }

  /** The segment holds "{{", `inner` and "}}" at i. */
  predicate BlockAt(segment: string, i: nat, inner: string)
  {
    i + |inner| + 4 <= |segment| && segment[i..i + |inner| + 4] == "{{" + inner + "}}"
  }

  /** "{{" at i and "}}" at j, at least one character apart with no '\n' between, frame a block. */
  lemma {:induction false} BlockBetween(segment: string, i: nat, j: nat)
    requires OccursAt(segment, "{{", i) && OccursAt(segment, "}}", j) && i + 3 <= j
    requires forall k :: i + 2 <= k < j ==> NotNewline(segment[k])
    ensures var inner := segment[i + 2..j];
            |inner| > 0 && '\n' !in inner && BlockAt(segment, i, inner)
  {
    var inner := segment[i + 2..j];
    forall k | 0 <= k < |inner| ensures inner[k] != '\n' {
      assert inner[k] == segment[i + 2 + k];
    }
    assert segment[i..j + 2] == "{{" + inner + "}}";
  }

  /** A block found from p on is "{{", a non-empty interior without '\n', and "}}". */
  ghost predicate BlockShape(segment: string, p: nat, inner: string)
  {
    |inner| > 0 && '\n' !in inner && exists i :: p <= i && BlockAt(segment, i, inner)
  }

  lemma {:induction false} BlockFromShape(segment: string, p: nat)
    ensures BlockFrom(segment, p).Some? ==> BlockShape(segment, p, BlockFrom(segment, p).value)
    decreases |segment| - p
  {
    var r := BlockFrom(segment, p);
    if r.Some? {
      FindFromSpec(segment, "{{", p);
      var i := FindFrom(segment, "{{", p).value;
      var n := RunEnd(segment, i + 2, NotNewline);
      var found := FindLastBelow(segment, "}}", n + 1);
      if found.Some? && i + 3 <= found.value {
        var j := found.value;
        assert r.value == segment[i + 2..j];
        RunEndSpec(segment, i + 2, NotNewline);
        FindLastBelowSpec(segment, "}}", n + 1);
        BlockBetween(segment, i, j);
        assert p <= i && BlockAt(segment, i, r.value);
      } else {
        assert r == BlockFrom(segment, i + 1);
        BlockFromShape(segment, i + 1);
      }
    }
  }

  // ---------------------------------------------------------------------
  // The tokens: findall of
  //   #[a-zA-Z0-9_-]+ | [a-zA-Z0-9_-]+='[^']+' | [a-zA-Z0-9_-]+=\S+ | [a-zA-Z0-9_-]+
  // ---------------------------------------------------------------------

  predicate NameChar(c: char)
  {
    ('a' <= c <= 'z') || ('A' <= c <= 'Z') || ('0' <= c <= '9') || c == '_' || c == '-'
  }

  predicate NotQuote(c: char)
  {
    c != '\''
  }

  /**
   * The end of the token matched at i, the alternatives tried in order. The
   * name run is maximal in every alternative, since '=' is not a name
   * character; a quoted value needs at least one character before its
   * closing quote, otherwise `=\S+` takes over.
   */
  function MatchToken(s: string, i: nat): (r: Option<nat>)
    requires i <= |s|
    ensures r.Some? ==> i < r.value <= |s|
  {
    if i == |s| then None
    else if s[i] == '#' then
      var e := RunEnd(s, i + 1, NameChar);
      if e == i + 1 then None else Some(e)
    else if !NameChar(s[i]) then None
    else
      var n := RunEnd(s, i, NameChar);
      if n < |s| && s[n] == '=' then
        var q := if n + 1 < |s| && s[n + 1] == '\'' then FindFrom(s, "'", n + 2) else None;
        if q.Some? && q.value > n + 2 then Some(q.value + 1)
        else
          var e := RunEnd(s, n + 1, NotSpace);
          if e > n + 1 then Some(e) else Some(n)
      else Some(n)
  }

  /** All tokens from i on, left to right; a character where no token starts is skipped. */
  function Tokens(s: string, i: nat): seq<string>
    requires i <= |s|
    decreases |s| - i
  {
    if i == |s| then []
    else match MatchToken(s, i)
      case Some(e) => [s[i..e]] + Tokens(s, e)
      case None => Tokens(s, i + 1)
  }

  // ---------------------------------------------------------------------
  // Folding the tokens into a map
  // ---------------------------------------------------------------------

  /** A value in the map under construction: a string, or the list of bare words kept under `class`. */
  datatype AttrValue = Text(text: string) | Classes(words: seq<string>)

  /** What a token asks for. `Malformed` is a token whose first '=' is its last character. */
  datatype Action = Assign(key: string, value: string) | AddClass(word: string) | Malformed

  /**
   * The branches `_attributes` takes on one token. A quoted value drops the
   * character after '=' and the last character (the slice `[sep + 2:-1]`,
   * empty when it would run backwards).
   */
  function ActionOf(token: string): Action
  {
    if |token| > 0 && token[0] == '#' then Assign("id", token[1..])
    else match FindFrom(token, "=", 0)
      case Some(sep) =>
        if sep + 1 == |token| then Malformed
        else if token[sep + 1] == '\'' then
          Assign(token[..sep], if sep + 2 <= |token| - 1 then token[sep + 2..|token| - 1] else "")
        else Assign(token[..sep], token[sep + 1..])
      case None => AddClass(token)
  }

  /** The key a token writes. */
  function KeyOf(token: string): string
  {
    match ActionOf(token)
    case Assign(key, _) => key
    case AddClass(_) => "class"
    case Malformed => ""
  }

  /** The bare words collected under `class` so far. */
  function ClassWords(attrs: map<string, AttrValue>): seq<string>
  {
    if "class" in attrs && attrs["class"].Classes? then attrs["class"].words else []
  }

  /**
   * One token applied to the map. Appending to a `class` that an explicit
   * `class=...` made a string fails as `str.append` does.
   */
  function Step(attrs: map<string, AttrValue>, token: string): Result<map<string, AttrValue>>
  {
    match ActionOf(token)
    case Assign(key, value) => Ok(attrs[key := Text(value)])
    case AddClass(word) =>
      if "class" in attrs && attrs["class"].Text? then Err(AttributeError)
      else Ok(attrs["class" := Classes(ClassWords(attrs) + [word])])
    case Malformed => Err(IndexError)
  }

  /** The tokens applied left to right, from the empty map; the first failure stops the fold. */
  function Gather(tokens: seq<string>): Result<map<string, AttrValue>>
    decreases |tokens|
  {
    if tokens == [] then Ok(map[])
    else match Gather(tokens[..|tokens| - 1])
      case Err(f) => Err(f)
      case Ok(attrs) => Step(attrs, tokens[|tokens| - 1])
  }

  /** ' '.join(words). */
  function JoinWords(words: seq<string>): string
  {
    if |words| == 0 then ""
    else if |words| == 1 then words[0]
    else words[0] + " " + JoinWords(words[1..])
  }

  /** ' '.join(s) over a string: its characters separated by single spaces. */
  function Spread(s: string): string
  {
    if |s| <= 1 then s else [s[0], ' '] + Spread(s[1..])
  }

  /** The final value of a key: `class` is joined with spaces, whatever it holds. */
  function Rendered(key: string, v: AttrValue): string
  {
    match v
    case Classes(words) => JoinWords(words)
    case Text(s) => if key == "class" then Spread(s) else s
  }

  function Finish(attrs: map<string, AttrValue>): map<string, string>
  {
    map key | key in attrs :: Rendered(key, attrs[key])
  }

  /** The map `_attributes` returns for the quoted group of a directive, or the exception it raises. */
  function Attributes(segment: Option<string>): Result<map<string, string>>
  {
    if segment.None? || segment.value == "" then Ok(map[])
    else match AttributeBlock(segment.value)
      case None => Ok(map[])
      case Some(inner) =>
        match Gather(Tokens(inner, 0))
        case Err(f) => Err(f)
        case Ok(attrs) => Ok(Finish(attrs))
  }

  /**
   * `_attributes` itself: the tokens are applied one at a time to a map that
   * is updated in place, and the class words are joined at the end.
   */
  method ParseAttributes(segment: Option<string>) returns (r: Result<map<string, string>>)
    ensures r == Attributes(segment)
  {
    if segment.None? || segment.value == "" {
      return Ok(map[]);
    }
    var block := AttributeBlock(segment.value);
    if block.None? {
      return Ok(map[]);
    }
    var tokens := Tokens(block.value, 0);
    var attrs: map<string, AttrValue> := map[];
    var k := 0;
    while k < |tokens|
      invariant 0 <= k <= |tokens|
      invariant Gather(tokens[..k]) == Ok(attrs)
    {
      var token := tokens[k];
      GatherNext(tokens, k, attrs);
      if |token| > 0 && token[0] == '#' {
        attrs := attrs["id" := Text(token[1..])];
      } else {
        var sep := FindFrom(token, "=", 0);
        if sep.Some? {
          var i := sep.value;
          if i + 1 == |token| {
            GatherSticky(tokens, k + 1, IndexError);
            return Err(IndexError);
          }
          var name := token[..i];
          if token[i + 1] == '\'' {
            attrs := attrs[name := Text(if i + 2 <= |token| - 1 then token[i + 2..|token| - 1] else "")];
          } else {
            attrs := attrs[name := Text(token[i + 1..])];
          }
        } else {
          var words: seq<string> := [];
          if "class" in attrs {
            match attrs["class"]
            case Text(_) =>
              GatherSticky(tokens, k + 1, AttributeError);
              return Err(AttributeError);
            case Classes(ws) =>
              words := ws;
          }
          attrs := attrs["class" := Classes(words + [token])];
        }
      }
      k := k + 1;
    }
    assert tokens[..k] == tokens;
    r := Ok(Finish(attrs));
  }

  // ---------------------------------------------------------------------
  // What the fold computes
  // ---------------------------------------------------------------------

  /** One more token: the fold of a longer prefix is one step after the fold of the shorter. */
  lemma {:induction false} GatherNext(tokens: seq<string>, k: nat, attrs: map<string, AttrValue>)
    requires k < |tokens| && Gather(tokens[..k]) == Ok(attrs)
    ensures Gather(tokens[..k + 1]) == Step(attrs, tokens[k])
  {
    assert tokens[..k + 1][..k] == tokens[..k];
  }

  /** Once a prefix of the tokens fails, the whole fold fails the same way. */
  lemma {:induction false} GatherSticky(tokens: seq<string>, p: nat, f: Failure)
    requires p <= |tokens| && Gather(tokens[..p]) == Err(f)
    ensures Gather(tokens) == Err(f)
    decreases |tokens|
  {
    if p == |tokens| {
      assert tokens[..p] == tokens;
    } else {
      var front := tokens[..|tokens| - 1];
      assert front[..p] == tokens[..p];
      GatherSticky(front, p, f);
    }
  }

  /** A successful step adds the key its token writes and keeps every other. */
  lemma {:induction false} StepKeys(attrs: map<string, AttrValue>, token: string, m: map<string, AttrValue>)
    requires Step(attrs, token) == Ok(m)
    ensures m.Keys == attrs.Keys + {KeyOf(token)}
  {
  }

  /** The keys of the map are exactly the keys the tokens write. */
  lemma {:induction false} GatherKeys(tokens: seq<string>, m: map<string, AttrValue>)
    requires Gather(tokens) == Ok(m)
    ensures forall key :: key in m <==> exists i :: 0 <= i < |tokens| && KeyOf(tokens[i]) == key
    decreases |tokens|
  {
    if tokens != [] {
      var n := |tokens| - 1;
      var front := tokens[..n];
      var m0 := Gather(front).value;
      GatherKeys(front, m0);
      StepKeys(m0, tokens[n], m);
      forall key ensures key in m <==> exists i :: 0 <= i < |tokens| && KeyOf(tokens[i]) == key {
        if key in m {
          if key == KeyOf(tokens[n]) {
            assert KeyOf(tokens[n]) == key;
          } else {
            assert key in m0;
            var i :| 0 <= i < |front| && KeyOf(front[i]) == key;
            assert tokens[i] == front[i];
          }
        }
        if exists i :: 0 <= i < |tokens| && KeyOf(tokens[i]) == key {
          var i :| 0 <= i < |tokens| && KeyOf(tokens[i]) == key;
          if i < n {
            assert front[i] == tokens[i];
          }
        }
      }
    }
  }

  /** A step that writes another key leaves `key`'s entry as it was. */
  lemma {:induction false} StepOther(attrs: map<string, AttrValue>, token: string, m: map<string, AttrValue>, key: string)
    requires Step(attrs, token) == Ok(m) && KeyOf(token) != key
    ensures (key in m <==> key in attrs) && (key in attrs ==> m[key] == attrs[key])
  {
  }

  /** An assigning step stores its value under its key. */
  lemma {:induction false} StepAssign(attrs: map<string, AttrValue>, token: string, m: map<string, AttrValue>)
    requires Step(attrs, token) == Ok(m) && ActionOf(token).Assign?
    ensures ActionOf(token).key in m && m[ActionOf(token).key] == Text(ActionOf(token).value)
  {
  }

  /** The value of a key is the one its last assigning token gives. */
  lemma {:induction false} GatherLastWins(tokens: seq<string>, m: map<string, AttrValue>, i: nat)
    requires Gather(tokens) == Ok(m) && i < |tokens| && ActionOf(tokens[i]).Assign?
    requires forall j :: i < j < |tokens| ==> KeyOf(tokens[j]) != ActionOf(tokens[i]).key
    ensures ActionOf(tokens[i]).key in m && m[ActionOf(tokens[i]).key] == Text(ActionOf(tokens[i]).value)
    decreases |tokens|
  {
    var n := |tokens| - 1;
    var front := tokens[..n];
    var m0 := Gather(front).value;
    assert Gather(tokens) == Step(m0, tokens[n]);
    if i < n {
      assert front[i] == tokens[i];
      forall j | i < j < |front| ensures KeyOf(front[j]) != ActionOf(front[i]).key {
        assert front[j] == tokens[j];
      }
      GatherLastWins(front, m0, i);
      StepOther(m0, tokens[n], m, ActionOf(tokens[i]).key);
    } else {
      StepAssign(m0, tokens[n], m);
    }
  }

  /** The words of the bare tokens, in the order they appear. */
  function BareWords(tokens: seq<string>): seq<string>
    decreases |tokens|
  {
    if tokens == [] then []
    else
      var last := tokens[|tokens| - 1];
      BareWords(tokens[..|tokens| - 1]) + if ActionOf(last).AddClass? then [last] else []
  }

  /** A token that sets `class` explicitly. */
  predicate SetsClass(token: string)
  {
    ActionOf(token).Assign? && ActionOf(token).key == "class"
  }

  /** Without an explicit `class=...`, `class` holds the bare words in order, and is present iff there is one. */
  lemma {:induction false} GatherClasses(tokens: seq<string>, m: map<string, AttrValue>)
    requires Gather(tokens) == Ok(m)
    requires forall i :: 0 <= i < |tokens| ==> !SetsClass(tokens[i])
    ensures ("class" in m) == (BareWords(tokens) != [])
    ensures "class" in m ==> m["class"] == Classes(BareWords(tokens))
    decreases |tokens|
  {
    if tokens != [] {
      var n := |tokens| - 1;
      var front := tokens[..n];
      forall i | 0 <= i < |front| ensures !SetsClass(front[i]) {
        assert front[i] == tokens[i];
      }
      GatherClasses(front, Gather(front).value);
      assert !SetsClass(tokens[n]);
    }
  }

  /** Between an explicit `class=...` and the next bare word, `class` stays a string. */
  lemma {:induction false} ClassStaysText(tokens: seq<string>, i: nat, p: nat, m: map<string, AttrValue>)
    requires i < p <= |tokens| && SetsClass(tokens[i])
    requires forall j :: i < j < p ==> !ActionOf(tokens[j]).AddClass?
    requires Gather(tokens[..p]) == Ok(m)
    ensures "class" in m && m["class"].Text?
    decreases p
  {
    var front := tokens[..p - 1];
    assert tokens[..p][..p - 1] == front;
    assert tokens[..p][p - 1] == tokens[p - 1];
    if i < p - 1 {
      ClassStaysText(tokens, i, p - 1, Gather(front).value);
    }
  }

  /** A bare word after an explicit `class=...` raises, as `str` has no `append`. */
  lemma {:induction false} GatherClassConflict(tokens: seq<string>, i: nat, j: nat)
    requires i < j < |tokens| && SetsClass(tokens[i]) && ActionOf(tokens[j]).AddClass?
    ensures Gather(tokens).Err?
    decreases j
  {
    if exists j' :: i < j' < j && ActionOf(tokens[j']).AddClass? {
      var j' :| i < j' < j && ActionOf(tokens[j']).AddClass?;
      GatherClassConflict(tokens, i, j');
    } else {
      match Gather(tokens[..j])
      case Err(f) =>
        GatherSticky(tokens, j, f);
      case Ok(m) =>
        ClassStaysText(tokens, i, j, m);
        assert tokens[..j + 1][..j] == tokens[..j];
        assert Gather(tokens[..j + 1]) == Err(AttributeError);
        GatherSticky(tokens, j + 1, AttributeError);
    }
  }

  /** An explicit `class=v` that no later token overrides ends up spread out character by character. */
  lemma {:induction false} ClassSpread(tokens: seq<string>, m: map<string, AttrValue>, i: nat)
    requires Gather(tokens) == Ok(m) && i < |tokens| && SetsClass(tokens[i])
    requires forall j :: i < j < |tokens| ==> KeyOf(tokens[j]) != "class"
    ensures "class" in Finish(m) && Finish(m)["class"] == Spread(ActionOf(tokens[i]).value)
  {
    GatherLastWins(tokens, m, i);
  }

  /** ' '.join over a non-empty string puts the characters at even places and spaces between them. */
  lemma {:induction false} SpreadShape(s: string)
    requires |s| > 0
    ensures |Spread(s)| == 2 * |s| - 1
    ensures forall k :: 0 <= k < |s| ==> Spread(s)[2 * k] == s[k]
    ensures forall k :: 0 <= k < |s| - 1 ==> Spread(s)[2 * k + 1] == ' '
  {
    if |s| > 1 {
      SpreadShape(s[1..]);
      var r := Spread(s);
      assert r == [s[0], ' '] + Spread(s[1..]);
      forall k | 1 <= k < |s| ensures r[2 * k] == s[k] {
        assert r[2 * k] == Spread(s[1..])[2 * (k - 1)];
      }
      forall k | 1 <= k < |s| - 1 ensures r[2 * k + 1] == ' ' {
        assert r[2 * k + 1] == Spread(s[1..])[2 * (k - 1) + 1];
      }
    }
  }

  // ---------------------------------------------------------------------
  // The shapes of the tokens
  // ---------------------------------------------------------------------

  predicate NameUpTo(t: string, n: nat)
  {
    n <= |t| && forall k :: 0 <= k < n ==> NameChar(t[k])
  }

  /** `#name` */
  predicate IdToken(t: string)
  {
    |t| >= 2 && t[0] == '#' && forall k :: 1 <= k < |t| ==> NameChar(t[k])
  }

  /** `name` */
  predicate BareToken(t: string)
  {
    |t| > 0 && NameUpTo(t, |t|)
  }

  /** `name='value'`, the name n characters long, the value non-empty and free of quotes. */
  predicate QuotedToken(t: string, n: nat)
  {
    && 0 < n && n + 3 < |t| && NameUpTo(t, n) && t[n] == '=' && t[n + 1] == '\'' && t[|t| - 1] == '\''
    && forall k :: n + 2 <= k < |t| - 1 ==> t[k] != '\''
  }

  /** `name=value`, the name n characters long, the value non-empty and free of whitespace. */
  predicate AssignToken(t: string, n: nat)
  {
    && 0 < n && n + 1 < |t| && NameUpTo(t, n) && t[n] == '='
    && forall k :: n + 1 <= k < |t| ==> NotSpace(t[k])
  }

  /** The four alternatives of the token pattern; n is where the name ends. */
  predicate TokenForm(t: string)
  {
    var n := RunEnd(t, 0, NameChar);
    IdToken(t) || BareToken(t) || QuotedToken(t, n) || AssignToken(t, n)
  }

  /** The first '=' of a token whose name runs up to n. */
  lemma {:induction false} FirstEquals(t: string, n: nat)
    requires n < |t| && t[n] == '=' && NameUpTo(t, n)
    ensures FindFrom(t, "=", 0) == Some(n)
  {
    OccursAtChar(t, '=', n);
    forall k: nat | k < n ensures !OccursAt(t, "=", k) {
      OccursAtChar(t, '=', k);
    }
    FindFromFirst(t, "=", 0, n);
  }

  /** What each shape of token does to the map; none of them is malformed. */
  lemma {:induction false} TokenActions(t: string)
    requires TokenForm(t)
    ensures IdToken(t) ==> ActionOf(t) == Assign("id", t[1..])
    ensures BareToken(t) ==> ActionOf(t) == AddClass(t)
    ensures var n := RunEnd(t, 0, NameChar);
            && (QuotedToken(t, n) ==> ActionOf(t) == Assign(t[..n], t[n + 2..|t| - 1]))
            && (AssignToken(t, n) && t[n + 1] != '\'' ==> ActionOf(t) == Assign(t[..n], t[n + 1..]))
    ensures var n := RunEnd(t, 0, NameChar);
            AssignToken(t, n) && t[n + 1] == '\'' ==>
              ActionOf(t) == Assign(t[..n], if n + 3 <= |t| then t[n + 2..|t| - 1] else "")
    ensures !ActionOf(t).Malformed?
  {
    var n := RunEnd(t, 0, NameChar);
    RunEndSpec(t, 0, NameChar);
    if t[0] != '#' {
      if BareToken(t) {
        FindFromSpec(t, "=", 0);
        if FindFrom(t, "=", 0).Some? {
          OccursAtChar(t, '=', FindFrom(t, "=", 0).value);
        }
      } else {
        FirstEquals(t, n);
      }
    }
  }

  /** A slice of `s` from i to e whose first n - i characters are a maximal name run. */
  lemma {:induction false} NameRunIn(s: string, i: nat, n: nat, e: nat)
    requires i <= n <= e <= |s| && MaximalRun(s, i, n, NameChar)
    ensures RunEnd(s[i..e], 0, NameChar) == n - i && NameUpTo(s[i..e], n - i)
  {
    var t := s[i..e];
    forall k | 0 <= k < n - i ensures NameChar(t[k]) {
      assert t[k] == s[i + k];
    }
    if n < e {
      assert t[n - i] == s[n];
    }
    RunEndOf(t, 0, n - i, NameChar);
  }

  lemma {:induction false} IdForm(s: string, i: nat, e: nat)
    requires i < e <= |s| && s[i] == '#' && MaximalRun(s, i + 1, e, NameChar) && e > i + 1
    ensures TokenForm(s[i..e])
  {
    var t := s[i..e];
    forall k | 1 <= k < |t| ensures NameChar(t[k]) {
      assert t[k] == s[i + k];
    }
    assert IdToken(t);
  }

  lemma {:induction false} QuotedForm(s: string, i: nat, n: nat, q: nat, e: nat)
    requires i < n && n + 2 < q < |s| && MaximalRun(s, i, n, NameChar) && s[n] == '=' && s[n + 1] == '\''
    requires FirstOccurrence(s, "'", n + 2, q) && e == q + 1
    ensures TokenForm(s[i..e])
  {
    var t := s[i..e];
    NameRunIn(s, i, n, e);
    OccursAtChar(s, '\'', q);
    forall k | n - i + 2 <= k < |t| - 1 ensures t[k] != '\'' {
      assert t[k] == s[i + k];
      OccursAtChar(s, '\'', i + k);
    }
    assert t[n - i] == s[n] && t[n - i + 1] == s[n + 1] && t[|t| - 1] == s[q];
    assert QuotedToken(t, n - i);
  }

  lemma {:induction false} AssignForm(s: string, i: nat, n: nat, e: nat)
    requires i < n && n + 1 < e <= |s| && MaximalRun(s, i, n, NameChar) && s[n] == '='
    requires MaximalRun(s, n + 1, e, NotSpace)
    ensures TokenForm(s[i..e])
  {
    var t := s[i..e];
    NameRunIn(s, i, n, e);
    forall k | n - i + 1 <= k < |t| ensures NotSpace(t[k]) {
      assert t[k] == s[i + k];
    }
    assert t[n - i] == s[n];
    assert AssignToken(t, n - i);
  }

  lemma {:induction false} BareForm(s: string, i: nat, n: nat, e: nat)
    requires i < n <= |s| && MaximalRun(s, i, n, NameChar) && e == n
    ensures TokenForm(s[i..e])
  {
    NameRunIn(s, i, n, n);
    assert BareToken(s[i..n]);
  }

  /** Every match of the token pattern has one of the four shapes. */
  lemma {:induction false} MatchTokenForm(s: string, i: nat, e: nat)
    requires i <= |s| && MatchToken(s, i) == Some(e)
    ensures TokenForm(s[i..e])
  {
    if s[i] == '#' {
      RunEndSpec(s, i + 1, NameChar);
      IdForm(s, i, e);
    } else {
      NameTokenForm(s, i, e);
    }
  }

  /** A match that starts with a name character is a quoted assignment, a plain assignment or a bare word. */
  lemma {:induction false} NameTokenForm(s: string, i: nat, e: nat)
    requires i < |s| && s[i] != '#' && MatchToken(s, i) == Some(e)
    ensures TokenForm(s[i..e])
  {
    var n := RunEnd(s, i, NameChar);
    RunEndSpec(s, i, NameChar);
    if n < |s| && s[n] == '=' {
      if n + 1 < |s| && s[n + 1] == '\'' && FindFrom(s, "'", n + 2).Some? && FindFrom(s, "'", n + 2).value > n + 2 {
        var q := FindFrom(s, "'", n + 2).value;
        FindFromSpec(s, "'", n + 2);
        assert e == q + 1;
        QuotedForm(s, i, n, q, e);
      } else if e > n {
        assert e == RunEnd(s, n + 1, NotSpace);
        RunEndSpec(s, n + 1, NotSpace);
        AssignForm(s, i, n, e);
      } else {
        assert e == n;
        BareForm(s, i, n, e);
      }
    } else {
      assert e == n;
      BareForm(s, i, n, e);
    }
  }

  /** Every token findall returns has one of the four shapes. */
  lemma {:induction false} TokensForm(s: string, i: nat)
    requires i <= |s|
    ensures forall k :: 0 <= k < |Tokens(s, i)| ==> TokenForm(Tokens(s, i)[k])
    decreases |s| - i
  {
    if i < |s| {
      match MatchToken(s, i)
      case Some(e) =>
        MatchTokenForm(s, i, e);
        TokensForm(s, e);
      case None =>
        TokensForm(s, i + 1);
    }
  }

  /** Tokens of the four shapes never reach the `IndexError` of a trailing '=': only `AttributeError` remains. */
  lemma {:induction false} GatherOnlyAttributeError(tokens: seq<string>)
    requires forall k :: 0 <= k < |tokens| ==> TokenForm(tokens[k])
    ensures Gather(tokens).Err? ==> Gather(tokens) == Err(AttributeError)
    decreases |tokens|
  {
    if tokens != [] {
      var n := |tokens| - 1;
      var front := tokens[..n];
      forall k | 0 <= k < |front| ensures TokenForm(front[k]) {
        assert front[k] == tokens[k];
      }
      GatherOnlyAttributeError(front);
      TokenActions(tokens[n]);
    }
  }

  /** Parsing an attribute segment can only raise `AttributeError`: a malformed token never arises. */
  lemma {:induction false} AttributesOnlyAttributeError(segment: Option<string>)
    ensures Attributes(segment).Err? ==> Attributes(segment) == Err(AttributeError)
  {
    if segment.Some? && segment.value != "" && AttributeBlock(segment.value).Some? {
      var inner := AttributeBlock(segment.value).value;
      TokensForm(inner, 0);
      GatherOnlyAttributeError(Tokens(inner, 0));
    }
  }

  // ---------------------------------------------------------------------
  // Reading written attributes back
  // ---------------------------------------------------------------------

  /** The block runs from the first "{{" to the last "}}", whatever one-line interior it holds. */
  lemma {:induction false} AttributeBlockOf(pre: string, inner: string, post: string)
    requires '{' !in pre && '}' !in post && |inner| > 0 && '\n' !in inner
    ensures AttributeBlock(pre + "{{" + inner + "}}" + post) == Some(inner)
  {
    var s := pre + "{{" + inner + "}}" + post;
    var i := |pre|;
    var j := |pre| + 2 + |inner|;
    forall k | 0 <= k < i ensures s[k] != '{' {
      assert s[k] == pre[k];
    }
    forall k | i + 2 <= k < j ensures s[k] != '\n' {
      assert s[k] == inner[k - i - 2];
    }
    forall k | j + 2 <= k < |s| ensures s[k] != '}' {
      assert s[k] == post[k - j - 2];
    }
    assert s[i] == '{' && s[i + 1] == '{' && s[j] == '}' && s[j + 1] == '}';
    BlockOfPieces(s, i, j);
    assert s[i + 2..j] == inner;
  }

  /** The first "{{", a one-line interior and a "}}" followed by no '}' make the block. */
  lemma {:induction false} BlockOfPieces(s: string, i: nat, j: nat)
    requires i + 3 <= j && j + 2 <= |s|
    requires forall k :: 0 <= k < i ==> s[k] != '{'
    requires s[i] == '{' && s[i + 1] == '{' && s[j] == '}' && s[j + 1] == '}'
    requires forall k :: i + 2 <= k < j ==> s[k] != '\n'
    requires forall k :: j + 2 <= k < |s| ==> s[k] != '}'
    ensures AttributeBlock(s) == Some(s[i + 2..j])
  {
    var n := RunEnd(s, i + 2, NotNewline);
    RunEndSpec(s, i + 2, NotNewline);
    assert OccursAt(s, "{{", i);
    forall k: nat | k < i ensures !OccursAt(s, "{{", k) {
      assert s[k + 0] != "{{"[0];
    }
    FindFromFirst(s, "{{", 0, i);
    assert OccursAt(s, "}}", j);
    forall m: nat | j < m < n + 1 ensures !OccursAt(s, "}}", m) {
      if m + 1 < |s| {
        assert s[m + 1] != "}}"[1];
      }
    }
    FindLastBelowOf(s, "}}", n + 1, j);
  }

  /** A segment without "{{" gives no attributes. */
  lemma {:induction false} AttributesWithoutBlock(segment: string)
    requires forall k: nat :: !OccursAt(segment, "{{", k)
    ensures Attributes(Some(segment)) == Ok(map[])
  {
    FindFromSpec(segment, "{{", 0);
  }

  /** A token that reads back as itself when a space or the end follows it. */
  predicate StandaloneToken(t: string)
  {
    var n := RunEnd(t, 0, NameChar);
    IdToken(t) || BareToken(t) || QuotedToken(t, n) || (AssignToken(t, n) && t[n + 1] != '\'')
  }

  /** The token t sits at i, followed by a blank or the end. */
  predicate TokenAt(s: string, i: nat, t: string)
  {
    i + |t| <= |s| && s[i..i + |t|] == t && (i + |t| == |s| || IsSpace(s[i + |t|]))
  }

  /** The name of a token at i is a maximal name run of the line. */
  lemma {:induction false} NameRunAt(s: string, i: nat, t: string, n: nat)
    requires TokenAt(s, i, t) && NameUpTo(t, n) && (n == |t| || !NameChar(t[n]))
    ensures MaximalRun(s, i, i + n, NameChar)
  {
    forall k | i <= k < i + n ensures NameChar(s[k]) {
      assert s[k] == t[k - i];
    }
    if i + n < |s| && n < |t| {
      assert s[i + n] == t[n];
    }
  }

  lemma {:induction false} IdAt(s: string, i: nat, t: string)
    requires TokenAt(s, i, t) && IdToken(t)
    ensures MatchToken(s, i) == Some(i + |t|)
  {
    forall k | i + 1 <= k < i + |t| ensures NameChar(s[k]) {
      assert s[k] == t[k - i];
    }
    assert s[i] == t[0];
    RunEndOf(s, i + 1, i + |t|, NameChar);
  }

  lemma {:induction false} BareAt(s: string, i: nat, t: string)
    requires TokenAt(s, i, t) && BareToken(t)
    ensures MatchToken(s, i) == Some(i + |t|)
  {
    NameRunAt(s, i, t, |t|);
    RunEndOf(s, i, i + |t|, NameChar);
    assert s[i] == t[0];
  }

  lemma {:induction false} QuotedAt(s: string, i: nat, t: string, n: nat)
    requires TokenAt(s, i, t) && QuotedToken(t, n)
    ensures MatchToken(s, i) == Some(i + |t|)
  {
    NameRunAt(s, i, t, n);
    RunEndOf(s, i, i + n, NameChar);
    var q := i + |t| - 1;
    assert s[i] == t[0] && s[i + n] == t[n] && s[i + n + 1] == t[n + 1] && s[q] == t[|t| - 1];
    OccursAtChar(s, '\'', q);
    forall k: nat | i + n + 2 <= k < q ensures !OccursAt(s, "'", k) {
      assert s[k] == t[k - i];
      OccursAtChar(s, '\'', k);
    }
    FindFromFirst(s, "'", i + n + 2, q);
  }

  lemma {:induction false} AssignAt(s: string, i: nat, t: string, n: nat)
    requires TokenAt(s, i, t) && AssignToken(t, n) && t[n + 1] != '\''
    ensures MatchToken(s, i) == Some(i + |t|)
  {
    NameRunAt(s, i, t, n);
    RunEndOf(s, i, i + n, NameChar);
    assert s[i] == t[0] && s[i + n] == t[n] && s[i + n + 1] == t[n + 1];
    forall k | i + n + 1 <= k < i + |t| ensures NotSpace(s[k]) {
      assert s[k] == t[k - i];
    }
    RunEndOf(s, i + n + 1, i + |t|, NotSpace);
  }

  /** The token pattern matched at a standalone token takes exactly that token. */
  lemma {:induction false} MatchTokenAt(s: string, i: nat, t: string)
    requires TokenAt(s, i, t) && StandaloneToken(t)
    ensures MatchToken(s, i) == Some(i + |t|)
  {
    var n := RunEnd(t, 0, NameChar);
    if IdToken(t) {
      IdAt(s, i, t);
    } else if BareToken(t) {
      BareAt(s, i, t);
    } else if QuotedToken(t, n) {
      QuotedAt(s, i, t, n);
    } else {
      AssignAt(s, i, t, n);
    }
  }

  /**
   * Why an unquoted value starting with a quote is not standalone: in
   * `k='a b'` the quoted alternative runs past the blank after `k='a`.
   */
  lemma {:induction false} QuotedRunsPastBlank()
    ensures MatchToken("k='a b'", 0) == Some(7)
  {
    var s := "k='a b'";
    RunEndOf(s, 0, 1, NameChar);
    OccursAtChar(s, '\'', 6);
    forall k: nat | 3 <= k < 6 ensures !OccursAt(s, "'", k) {
      OccursAtChar(s, '\'', k);
    }
    FindFromFirst(s, "'", 3, 6);
  }

  /** A standalone token that ends the text is its last token. */
  lemma {:induction false} TokenAtEnd(s: string, i: nat, t: string)
    requires i <= |s| && s[i..] == t && StandaloneToken(t)
    ensures Tokens(s, i) == [t]
  {
    var e := i + |t|;
    assert s[i..e] == t;
    MatchTokenAt(s, i, t);
    assert Tokens(s, e) == [];
  }

  /** A match at i contributes its text and the search resumes where it ends. */
  lemma {:induction false} TokensMatched(s: string, i: nat, e: nat)
    requires i <= |s| && MatchToken(s, i) == Some(e)
    ensures Tokens(s, i) == [s[i..e]] + Tokens(s, e)
  {
  }

  /** A character where no token starts is skipped. */
  lemma {:induction false} TokensSkipped(s: string, i: nat)
    requires i < |s| && MatchToken(s, i).None?
    ensures Tokens(s, i) == Tokens(s, i + 1)
  {
  }

  /** No token starts at a space. */
  lemma {:induction false} SpaceNoToken(s: string, i: nat)
    requires i < |s| && s[i] == ' '
    ensures MatchToken(s, i).None?
  {
  }

  /** A standalone token followed by a space: the token is matched, the space skipped. */
  lemma {:induction false} TokenThenSpace(s: string, i: nat, t: string, rest: string, e: nat)
    requires i <= |s| && s[i..] == t + (" " + rest) && StandaloneToken(t) && e == i + |t| + 1
    ensures e <= |s| && Tokens(s, i) == [t] + Tokens(s, e)
    ensures s[e..] == rest
  {
    var j := i + |t|;
    Peel(s, i, j, t, " " + rest);
    assert s[j] == s[j..][0];
    MatchTokenAt(s, i, t);
    TokensMatched(s, i, j);
    SpaceNoToken(s, j);
    TokensSkipped(s, j);
    Peel(s, j, e, " ", rest);
  }

  /** Standalone tokens written with single spaces between them are read back one for one. */
  lemma {:induction false} TokensOfJoin(s: string, i: nat, tokens: seq<string>)
    requires i <= |s| && s[i..] == JoinWords(tokens)
    requires forall k :: 0 <= k < |tokens| ==> StandaloneToken(tokens[k])
    ensures Tokens(s, i) == tokens
    decreases |tokens|, 1
  {
    if tokens == [] {
      assert |s[i..]| == 0;
    } else if |tokens| == 1 {
      assert s[i..] == tokens[0];
      TokenAtEnd(s, i, tokens[0]);
    } else {
      TokensOfJoinMany(s, i, tokens);
    }
  }

  /** The step of the reading back: the first of several tokens, then the rest after its space. */
  lemma {:induction false} TokensOfJoinMany(s: string, i: nat, tokens: seq<string>)
    requires i <= |s| && s[i..] == JoinWords(tokens) && |tokens| > 1
    requires forall k :: 0 <= k < |tokens| ==> StandaloneToken(tokens[k])
    ensures Tokens(s, i) == tokens
    decreases |tokens|, 0
  {
    var t := tokens[0];
    var rest := JoinWords(tokens[1..]);
    assert s[i..] == t + (" " + rest);
    var e := i + |t| + 1;
    TokenThenSpace(s, i, t, rest, e);
    forall k | 0 <= k < |tokens[1..]| ensures StandaloneToken(tokens[1..][k]) {
      assert tokens[1..][k] == tokens[k + 1];
    }
    TokensOfJoin(s, e, tokens[1..]);
    assert tokens == [t] + tokens[1..];
  }

  /** A segment written as "{{" + tokens + "}}" parses as the fold of exactly those tokens. */
  lemma {:induction false} AttributesOfWritten(pre: string, tokens: seq<string>, post: string)
    requires '{' !in pre && '}' !in post && tokens != [] && '\n' !in JoinWords(tokens)
    requires forall k :: 0 <= k < |tokens| ==> StandaloneToken(tokens[k])
    ensures Attributes(Some(pre + "{{" + JoinWords(tokens) + "}}" + post))
            == match Gather(tokens) case Err(f) => Err(f) case Ok(m) => Ok(Finish(m))
  {
    var inner := JoinWords(tokens);
    assert |tokens[0]| > 0;
    assert |inner| > 0 by {
      if |tokens| > 1 {
        assert inner == tokens[0] + " " + JoinWords(tokens[1..]);
      }
    }
    AttributeBlockOf(pre, inner, post);
    assert inner[0..] == inner;
    TokensOfJoin(inner, 0, tokens);
  }
}
