/** `utils.CleanHTML`: three regular-expression rewrites that repair tags
    closed with a comment terminator (`<p-->`, `<img src="x" -->`, `<br-->`),
    followed by `strings.TrimSpace`.

    Each expression is modelled by `MatchAt`, the match RE2 reports when it is
    asked for the leftmost match starting at a given index: among all ways
    the expression fits there, the one a backtracking matcher tries first
    (greedy repetitions longest first, lazy ones shortest first, alternatives
    in the order written).  `ReplaceAll` scans left to right and resumes
    after each match, as `Regexp.ReplaceAllString` does. */
module Html {
  import opened Wrappers

  // ---------------------------------------------------------------------
  // Character classes
  // ---------------------------------------------------------------------

  const Tab: char := '\t'
  const LineFeed: char := '\n'
  const VerticalTab: char := '\U{000B}'
  const FormFeed: char := '\U{000C}'
  const CarriageReturn: char := '\r'

  predicate IsLetter(c: char)
  {
    'a' <= c <= 'z' || 'A' <= c <= 'Z'
  }

  predicate IsAlnum(c: char)
  {
    IsLetter(c) || '0' <= c <= '9'
  }

  predicate IsDash(c: char)
  {
    c == '-'
  }

  /** The regular-expression class `\s` of RE2: `[\t\n\f\r ]`. */
  predicate IsRegexSpace(c: char)
  {
    c == Tab || c == LineFeed || c == FormFeed || c == CarriageReturn || c == ' '
  }

  /** `unicode.IsSpace`, the test `strings.TrimSpace` applies: the Unicode
      White_Space property. */
  predicate IsUnicodeSpace(c: char)
  {
    || c == Tab || c == LineFeed || c == VerticalTab || c == FormFeed || c == CarriageReturn || c == ' '
    || c == '\U{0085}' || c == '\U{00A0}' || c == '\U{1680}'
    || ('\U{2000}' <= c <= '\U{200A}')
    || c == '\U{2028}' || c == '\U{2029}' || c == '\U{202F}' || c == '\U{205F}' || c == '\U{3000}'
  }

  /** The classes the expressions repeat. */
  datatype CharClass = Alnum | RegexSpace | Dash | UnicodeSpace

  predicate InClass(cls: CharClass, c: char)
  {
    match cls
    case Alnum => IsAlnum(c)
    case RegexSpace => IsRegexSpace(c)
    case Dash => IsDash(c)
    case UnicodeSpace => IsUnicodeSpace(c)
  }

  /** Length of the longest run of characters of class `f` from index `i`. */
  function Span(s: string, i: nat, f: CharClass): (n: nat)
    requires i <= |s|
    ensures i + n <= |s|
    ensures i + n == |s| || !InClass(f, s[i + n])
    decreases |s| - i
  {
    if i == |s| || !InClass(f, s[i]) then 0 else 1 + Span(s, i + 1, f)
  }

  /** Every character the run covers is of the class. */
  lemma {:induction false} SpanChars(s: string, i: nat, f: CharClass)
    requires i <= |s|
    ensures forall k :: i <= k < i + Span(s, i, f) ==> InClass(f, s[k])
    decreases |s| - i
  {
    if i < |s| && InClass(f, s[i]) {
      SpanChars(s, i + 1, f);
    }
  }

  lemma {:induction false} SpanExact(s: string, i: nat, j: nat, f: CharClass)
    requires i <= j <= |s|
    requires forall k :: i <= k < j ==> InClass(f, s[k])
    requires j == |s| || !InClass(f, s[j])
    ensures Span(s, i, f) == j - i
    decreases j - i
  {
    if i < j {
      SpanExact(s, i + 1, j, f);
    }
  }

  /** `-->` occurs at index `k`. */
  predicate ArrowAt(s: string, k: int)
  {
    0 <= k && k + 3 <= |s| && s[k] == '-' && s[k + 1] == '-' && s[k + 2] == '>'
  }

  /** `--+>` matches at `p`: a run of at least two dashes, then `>`.  The run
      is taken whole, since a shorter one would leave a dash where `>` is due. */
  predicate DashesClose(s: string, p: nat)
  {
    p <= |s| && Span(s, p, Dash) >= 2 && p + Span(s, p, Dash) < |s| && s[p + Span(s, p, Dash)] == '>'
  }

  /** Index just past the `--+>` at `p`. */
  function CloseEnd(s: string, p: nat): (e: nat)
    requires DashesClose(s, p)
    ensures p + 3 <= e <= |s| && ArrowAt(s, e - 3)
  {
    SpanChars(s, p, Dash);
    p + Span(s, p, Dash) + 1
  }

  // ---------------------------------------------------------------------
  // The three expressions
  // ---------------------------------------------------------------------

  /** `<([a-zA-Z][a-zA-Z0-9]*)\s*--+>`, `<(img|br|hr|input|meta|link)\s+([^>]+?)--+>`
      and `<(img|br|hr|input|meta|link)\s*--+>`. */
  datatype Pattern = MalformedTag | VoidWithAttrs | VoidNoAttrs

  datatype Match = Match(end: nat, replacement: string)

  /** A match found at `i` covers at least `<`, one more character and `-->`,
      and ends with the `-->` inside the text. */
  predicate EndsInArrow(s: string, i: nat, m: Match)
  {
    i + 1 < m.end - 3 && m.end <= |s| && ArrowAt(s, m.end - 3)
  }

  /** The alternatives of `(img|br|hr|input|meta|link)`, in the order written. */
  datatype VoidTag = Img | Br | Hr | Input | Meta | Link

  function Name(v: VoidTag): string
  {
    match v
    case Img => "img"
    case Br => "br"
    case Hr => "hr"
    case Input => "input"
    case Meta => "meta"
    case Link => "link"
  }

  /** `w` is spelled out in `s` from index `i`. */
  predicate OccursAt(s: string, i: nat, w: string)
    decreases |w|
  {
    i + |w| <= |s| && (w == [] || (s[i] == w[0] && OccursAt(s, i + 1, w[1..])))
  }

  lemma {:induction false} OccursAtChars(s: string, i: nat, w: string)
    requires OccursAt(s, i, w)
    ensures forall k :: 0 <= k < |w| ==> s[i + k] == w[k]
    decreases |w|
  {
    if w != [] {
      OccursAtChars(s, i + 1, w[1..]);
      assert forall k :: 1 <= k < |w| ==> w[k] == w[1..][k - 1];
    }
  }

  /** The alternatives of `(img|br|hr|input|meta|link)` in the order RE2 tries them. */
  const VoidTags: seq<VoidTag> := [Img, Br, Hr, Input, Meta, Link]

  /** The first of `tags` whose name is present at `i`. */
  function FirstPresent(s: string, i: nat, tags: seq<VoidTag>): (r: Option<VoidTag>)
    ensures r.Some? ==> r.value in tags && OccursAt(s, i, Name(r.value))
  {
    if tags == [] then None
    else if OccursAt(s, i, Name(tags[0])) then Some(tags[0])
    else FirstPresent(s, i, tags[1..])
  }

  /** The first alternative of `img|br|hr|input|meta|link` present at `i`. */
  function TagAt(s: string, i: nat): (r: Option<VoidTag>)
    ensures r.Some? ==> OccursAt(s, i, Name(r.value))
  {
    FirstPresent(s, i, VoidTags)
  }

  /** No void tag name is a prefix of another: the first two letters tell
      them apart. */
  lemma OccursOnce(s: string, i: nat, v: VoidTag, w: VoidTag)
    requires OccursAt(s, i, Name(v)) && OccursAt(s, i, Name(w))
    ensures v == w
  {
    OccursAtHead(s, i, Name(v));
    OccursAtHead(s, i, Name(w));
  }

  lemma {:induction false} FirstPresentFinds(s: string, i: nat, tags: seq<VoidTag>, v: VoidTag)
    requires v in tags && OccursAt(s, i, Name(v))
    ensures FirstPresent(s, i, tags) == Some(v)
  {
    if OccursAt(s, i, Name(tags[0])) {
      OccursOnce(s, i, v, tags[0]);
    } else {
      FirstPresentFinds(s, i, tags[1..], v);
    }
  }

  /** Each void tag name is found where it occurs. */
  lemma TagAtPresent(s: string, i: nat, v: VoidTag)
    requires OccursAt(s, i, Name(v))
    ensures TagAt(s, i) == Some(v)
  {
    FirstPresentFinds(s, i, VoidTags, v);
  }

  lemma OccursAtHead(s: string, i: nat, w: string)
    requires |w| >= 2 && OccursAt(s, i, w)
    ensures s[i] == w[0] && s[i + 1] == w[1]
  {
    assert w[1..][0] == w[1];
  }

  /** The lazy `([^>]+?)` followed by `--+>`: the first end `p`, counting up
      from the shortest, at which `--+>` matches, the text from `q` having no
      `>` (the search stops when a `>` is consumed). */
  function LazyAttrs(s: string, q: nat, p: nat): (r: Option<nat>)
    requires q < p
    ensures r.Some? ==> p <= r.value < |s| && DashesClose(s, r.value)
    decreases |s| - p
  {
    if p > |s| || s[p - 1] == '>' then None
    else if DashesClose(s, p) then Some(p)
    else LazyAttrs(s, q, p + 1)
  }

  /** The greedy `\s+` after the tag name, which ends at `t`: widths `l` down
      to 1, each followed by the lazy attribute search. */
  function TryWidths(s: string, v: VoidTag, t: nat, l: nat): (r: Option<Match>)
    requires t + l <= |s|
    ensures r.Some? ==> EndsInArrow(s, t, r.value)
    decreases l
  {
    if l == 0 then None
    else
      var q := t + l;
      match LazyAttrs(s, q, q + 1)
      case Some(p) => Some(Match(CloseEnd(s, p), "<" + Name(v) + " " + s[q..p] + ">"))
      case None => TryWidths(s, v, t, l - 1)
  }

  /** `<([a-zA-Z][a-zA-Z0-9]*)\s*--+>` at `i`.  No repetition can give back a
      character and still let the rest match, so the match is the longest
      name, the longest white space and the longest dash run. */
  function MatchMalformedTag(s: string, i: nat): (m: Option<Match>)
    requires i + 1 < |s|
    ensures m.Some? ==> EndsInArrow(s, i, m.value)
  {
    if !IsLetter(s[i + 1]) then None
    else
      var t := i + 2 + Span(s, i + 2, Alnum);
      var p := t + Span(s, t, RegexSpace);
      if DashesClose(s, p) then Some(Match(CloseEnd(s, p), "<" + s[i + 1..t] + ">")) else None
  }

  /** `<(img|br|hr|input|meta|link)\s+([^>]+?)--+>` at `i`. */
  function MatchVoidWithAttrs(s: string, i: nat): (m: Option<Match>)
    requires i + 1 < |s|
    ensures m.Some? ==> EndsInArrow(s, i, m.value)
  {
    VoidWithAttrsAfter(s, i, TagAt(s, i + 1))
  }

  /** The rest of the second expression once the alternation has found
      `tag` after the `<` at `i` (`None`: no alternative matched). */
  function VoidWithAttrsAfter(s: string, i: nat, tag: Option<VoidTag>): (m: Option<Match>)
    requires i + 1 < |s| && (tag.Some? ==> i + 1 + |Name(tag.value)| <= |s|)
    ensures m.Some? ==> EndsInArrow(s, i, m.value)
  {
    match tag
    case None => None
    case Some(v) =>
      var t := i + 1 + |Name(v)|;
      TryWidths(s, v, t, Span(s, t, RegexSpace))
  }

  /** `<(img|br|hr|input|meta|link)\s*--+>` at `i`. */
  function MatchVoidNoAttrs(s: string, i: nat): (m: Option<Match>)
    requires i + 1 < |s|
    ensures m.Some? ==> EndsInArrow(s, i, m.value)
  {
    VoidNoAttrsAfter(s, i, TagAt(s, i + 1))
  }

  /** The rest of the third expression once the alternation has found `tag`
      after the `<` at `i`. */
  function VoidNoAttrsAfter(s: string, i: nat, tag: Option<VoidTag>): (m: Option<Match>)
    requires i + 1 < |s| && (tag.Some? ==> i + 1 + |Name(tag.value)| <= |s|)
    ensures m.Some? ==> EndsInArrow(s, i, m.value)
  {
    match tag
    case None => None
    case Some(v) =>
      var t := i + 1 + |Name(v)|;
      CloseAfterName(s, v, t + Span(s, t, RegexSpace))
  }

  /** `--+>` at `p`, after the name `v` and its white space, gives `<v>`. */
  function CloseAfterName(s: string, v: VoidTag, p: nat): (m: Option<Match>)
    ensures m.Some? ==> p + 3 <= m.value.end <= |s| && ArrowAt(s, m.value.end - 3)
  {
    if DashesClose(s, p) then Some(Match(CloseEnd(s, p), "<" + Name(v) + ">")) else None
  }

  /** The match of `pat` that starts at `i`, if any. */
  function MatchAt(pat: Pattern, s: string, i: nat): (m: Option<Match>)
    ensures m.Some? ==> i < |s| && s[i] == '<'
    ensures m.Some? ==> EndsInArrow(s, i, m.value)
  {
    if i + 1 >= |s| || s[i] != '<' then None
    else
      match pat
      case MalformedTag => MatchMalformedTag(s, i)
      case VoidWithAttrs => MatchVoidWithAttrs(s, i)
      case VoidNoAttrs => MatchVoidNoAttrs(s, i)
  }

  /** `ReplaceAllString` from index `i`: each match replaced, the text between
      matches copied. */
  function Scan(pat: Pattern, s: string, i: nat): string
    requires i <= |s|
    decreases |s| - i
  {
    if i == |s| then []
    else
      match MatchAt(pat, s, i)
      case Some(m) => m.replacement + Scan(pat, s, m.end)
      case None => [s[i]] + Scan(pat, s, i + 1)
  }

  function ReplaceAll(pat: Pattern, s: string): string
  {
    Scan(pat, s, 0)
  }

  /** Where the expression matches nowhere, the scan copies the text. */
  lemma {:induction false} ScanWithoutMatches(pat: Pattern, s: string, i: nat)
    requires i <= |s|
    requires forall k :: i <= k < |s| ==> MatchAt(pat, s, k).None?
    ensures Scan(pat, s, i) == s[i..]
    decreases |s| - i
  {
    if i < |s| {
      ScanWithoutMatches(pat, s, i + 1);
      assert s[i..] == [s[i]] + s[i + 1..];
    }
  }

  /** Every match ends in `-->`, so text without `-->` is left alone. */
  lemma ReplaceAllWithoutArrow(pat: Pattern, s: string)
    requires forall k :: !ArrowAt(s, k)
    ensures ReplaceAll(pat, s) == s
  {
    ScanWithoutMatches(pat, s, 0);
  }

  /** A scan whose first match covers the whole text yields its replacement. */
  lemma ReplaceAllOneMatch(pat: Pattern, s: string, m: Match)
    requires MatchAt(pat, s, 0) == Some(m) && m.end == |s|
    ensures ReplaceAll(pat, s) == m.replacement
  {
    assert Scan(pat, s, |s|) == [];
    assert m.replacement + [] == m.replacement;
  }

  // ---------------------------------------------------------------------
  // strings.TrimSpace
  // ---------------------------------------------------------------------

  predicate AllUnicodeSpace(s: string)
  {
    forall k :: 0 <= k < |s| ==> IsUnicodeSpace(s[k])
  }

  predicate Trimmed(s: string)
  {
    s == [] || (!IsUnicodeSpace(s[0]) && !IsUnicodeSpace(s[|s| - 1]))
  }

  /** Length of the longest run of white space ending just before `j`. */
  function SpaceBefore(s: string, j: nat): (n: nat)
    requires j <= |s|
    ensures n <= j
    ensures n == j || !IsUnicodeSpace(s[j - n - 1])
  {
    if j == 0 || !IsUnicodeSpace(s[j - 1]) then 0 else 1 + SpaceBefore(s, j - 1)
  }

  lemma {:induction false} SpaceBeforeChars(s: string, j: nat)
    requires j <= |s|
    ensures AllUnicodeSpace(s[j - SpaceBefore(s, j)..j])
  {
    if j > 0 && IsUnicodeSpace(s[j - 1]) {
      SpaceBeforeChars(s, j - 1);
      assert s[j - SpaceBefore(s, j)..j] == s[j - SpaceBefore(s, j)..j - 1] + [s[j - 1]];
    }
  }

  /** The text between the leading and the trailing white space. */
  function TrimSpace(s: string): (r: string)
    ensures Trimmed(r)
  {
    var a := Span(s, 0, UnicodeSpace);
    if a == |s| then []
    else
      var b := |s| - SpaceBefore(s, |s|);
      assert a < b by {
        SpaceBeforeChars(s, |s|);
      }
      s[a..b]
  }

  /** TrimSpace removes white space from both ends and nothing else. */
  lemma TrimSpaceRemovesOnlySpace(s: string)
    ensures exists a: nat, b: nat :: a <= b <= |s| && TrimSpace(s) == s[a..b] && AllUnicodeSpace(s[..a]) && AllUnicodeSpace(s[b..])
  {
    var a := Span(s, 0, UnicodeSpace);
    SpanChars(s, 0, UnicodeSpace);
    assert AllUnicodeSpace(s[..a]);
    if a == |s| {
      assert TrimSpace(s) == s[a..a];
    } else {
      var b := |s| - SpaceBefore(s, |s|);
      SpaceBeforeChars(s, |s|);
      assert s[b..] == s[b..|s|];
      assert TrimSpace(s) == s[a..b];
    }
  }

  /** A string already free of surrounding white space is its own trim. */
  lemma TrimSpaceOfTrimmed(s: string)
    requires Trimmed(s)
    ensures TrimSpace(s) == s
  {
    if s != [] {
      assert Span(s, 0, UnicodeSpace) == 0;
      assert SpaceBefore(s, |s|) == 0;
      assert s[0..|s|] == s;
    }
  }

  // ---------------------------------------------------------------------
  // CleanHTML
  // ---------------------------------------------------------------------

  function CleanHTML(html: string): (r: string)
    ensures html == [] ==> r == []
    ensures Trimmed(r)
  {
    if html == [] then html
    else
      var h1 := ReplaceAll(MalformedTag, html);
      var h2 := ReplaceAll(VoidWithAttrs, h1);
      var h3 := ReplaceAll(VoidNoAttrs, h2);
      TrimSpace(h3)
  }

  /** CleanHTML as its four stages. */
  lemma CleanStages(html: string, h1: string, h2: string, h3: string)
    requires html != []
    requires ReplaceAll(MalformedTag, html) == h1 && ReplaceAll(VoidWithAttrs, h1) == h2
    requires ReplaceAll(VoidNoAttrs, h2) == h3
    ensures CleanHTML(html) == TrimSpace(h3)
  {
  }

  /** Text without `-->` only loses its surrounding white space. */
  lemma CleanWithoutArrow(html: string)
    requires forall k :: !ArrowAt(html, k)
    ensures CleanHTML(html) == TrimSpace(html)
  {
    if html != [] {
      ReplaceAllWithoutArrow(MalformedTag, html);
      ReplaceAllWithoutArrow(VoidWithAttrs, html);
      ReplaceAllWithoutArrow(VoidNoAttrs, html);
      CleanStages(html, html, html, html);
    }
  }

  /** Markup where none of the three expressions matches anywhere, such as
      well-formed markup with comments, only loses its surrounding white space. */
  lemma CleanWithoutMatches(html: string)
    requires forall p: Pattern, k :: 0 <= k < |html| ==> MatchAt(p, html, k).None?
    ensures CleanHTML(html) == TrimSpace(html)
  {
    if html != [] {
      ScanWithoutMatches(MalformedTag, html, 0);
      ScanWithoutMatches(VoidWithAttrs, html, 0);
      ScanWithoutMatches(VoidNoAttrs, html, 0);
      CleanStages(html, html, html, html);
    }
  }

  /** A comment is not tag soup: `<!-- c -->` comes out unchanged. */
  lemma CleanComment()
    ensures CleanHTML("<!-- c -->") == "<!-- c -->"
  {
    var h := "<!-- c -->";
    TrimSpaceOfTrimmed(h);
    forall p: Pattern, k | 0 <= k < |h|
      ensures MatchAt(p, h, k).None?
    {
      CommentMatchesNowhere(p, k);
    }
    CleanWithoutMatches(h);
  }

  /** The only `<` of the comment is followed by `!`, which starts neither a
      tag name nor a void tag name. */
  lemma CommentMatchesNowhere(p: Pattern, k: nat)
    ensures MatchAt(p, "<!-- c -->", k).None?
  {
    var h := "<!-- c -->";
    if k == 0 {
      TagNeedsLetter(h, 1);
      assert !IsLetter(h[1]);
    } else if k < |h| {
      assert h[k] != '<';
    }
  }

  /** A void tag name starts with a letter, so none is found at a `!`. */
  lemma TagNeedsLetter(s: string, i: nat)
    requires i < |s| && s[i] == '!'
    ensures TagAt(s, i).None?
  {
    if TagAt(s, i).Some? {
      OccursAtHead(s, i, Name(TagAt(s, i).value));
    }
  }

  // ---------------------------------------------------------------------
  // The repairs
  // ---------------------------------------------------------------------

  /** `s[a..b]` is white space in the sense of `\s`. */
  predicate SpaceRun(s: string, a: nat, b: nat)
  {
    a <= b <= |s| && forall k :: a <= k < b ==> IsRegexSpace(s[k])
  }

  /** `s[p..e]` is two or more dashes and `s[e]` is `>`. */
  predicate DashesThenClose(s: string, p: nat, e: nat)
  {
    p + 2 <= e < |s| && (forall k :: p <= k < e ==> s[k] == '-') && s[e] == '>'
  }

  lemma DashesCloseAt(s: string, p: nat, e: nat)
    requires DashesThenClose(s, p, e)
    ensures DashesClose(s, p) && CloseEnd(s, p) == e + 1
  {
    SpanExact(s, p, e, Dash);
  }

  /** `s[i..e + 1]` is `<name ws dashes>`: the name `s[i + 1..t]` starts with a
      letter and goes on with letters and digits, `s[t..p]` is white space and
      `s[p..e]` two or more dashes. */
  predicate BrokenTag(s: string, i: nat, t: nat, p: nat, e: nat)
  {
    && i + 1 < t
    && SpaceRun(s, t, p)
    && DashesThenClose(s, p, e)
    && s[i] == '<' && IsLetter(s[i + 1])
    && (forall k :: i + 1 < k < t ==> IsAlnum(s[k]))
  }

  /** `s[i..e + 1]` is `<tag ws dashes>` for the void tag `v`, white space
      `s[t..p]` where `t` is the end of the name, and two or more dashes
      `s[p..e]`. */
  predicate BrokenVoid(s: string, i: nat, v: VoidTag, p: nat, e: nat)
  {
    && SpaceRun(s, i + 1 + |Name(v)|, p)
    && DashesThenClose(s, p, e)
    && s[i] == '<' && OccursAt(s, i + 1, Name(v))
  }

  /** `s[i..f + 1]` is `<tag ws attrs dashes>` for the void tag `v`, non-empty
      white space `s[t..q]` where `t` is the end of the name, attribute text
      `s[q..e]` that has no `>`, does not start with white space and does not
      end in a dash, and two or more dashes `s[e..f]`. */
  predicate BrokenVoidWithAttrs(s: string, i: nat, v: VoidTag, q: nat, e: nat, f: nat)
  {
    && i + 1 + |Name(v)| < q < e
    && SpaceRun(s, i + 1 + |Name(v)|, q)
    && DashesThenClose(s, e, f)
    && s[i] == '<' && OccursAt(s, i + 1, Name(v))
    && !IsRegexSpace(s[q]) && s[e - 1] != '-'
    && (forall k :: q <= k < e ==> s[k] != '>')
  }

  /** Wherever `<name ws dashes>` occurs, the first expression matches it
      whole and replaces it by `<name>`. */
  lemma MalformedTagRepaired(s: string, i: nat, t: nat, p: nat, e: nat)
    requires BrokenTag(s, i, t, p, e)
    ensures MatchAt(MalformedTag, s, i) == Some(Match(e + 1, "<" + s[i + 1..t] + ">"))
  {
    assert i + 2 + Span(s, i + 2, Alnum) == t by {
      assert !InClass(Alnum, s[t]) by {
        if t < p {
          assert IsRegexSpace(s[t]);
        } else {
          assert s[t] == '-';
        }
      }
      SpanExact(s, i + 2, t, Alnum);
    }
    assert t + Span(s, t, RegexSpace) == p by {
      SpanExact(s, t, p, RegexSpace);
    }
    assert DashesClose(s, p) && CloseEnd(s, p) == e + 1 by {
      DashesCloseAt(s, p, e);
    }
    assert MatchMalformedTag(s, i) == Some(Match(e + 1, "<" + s[i + 1..t] + ">"));
  }

  /** Wherever `<tag ws dashes>` occurs for a void tag, the third expression
      matches it whole and replaces it by `<tag>`. */
  lemma VoidNoAttrsRepaired(s: string, i: nat, v: VoidTag, p: nat, e: nat)
    requires BrokenVoid(s, i, v, p, e)
    ensures MatchAt(VoidNoAttrs, s, i) == Some(Match(e + 1, "<" + Name(v) + ">"))
  {
    var t := i + 1 + |Name(v)|;
    TagAtPresent(s, i + 1, v);
    SpanExact(s, t, p, RegexSpace);
    DashesCloseAt(s, p, e);
    VoidNoAttrsAt(s, i, v, t, p, e);
  }

  /** At a `<` the third expression is tried by `MatchVoidNoAttrs`. */
  lemma MatchAtVoidNoAttrs(s: string, i: nat)
    requires i + 1 < |s| && s[i] == '<'
    ensures MatchAt(VoidNoAttrs, s, i) == MatchVoidNoAttrs(s, i)
  {
  }

  /** Once the tag name is found, the third expression looks for `--+>` after
      the white space that follows it. */
  lemma VoidNoAttrsTries(s: string, i: nat, v: VoidTag, t: nat)
    requires i + 1 < |s| && TagAt(s, i + 1) == Some(v) && t == i + 1 + |Name(v)|
    ensures MatchVoidNoAttrs(s, i) == CloseAfterName(s, v, t + Span(s, t, RegexSpace))
  {
    VoidNoAttrsAfterTag(s, i, v, t, TagAt(s, i + 1));
  }

  lemma VoidNoAttrsAfterTag(s: string, i: nat, v: VoidTag, t: nat, tag: Option<VoidTag>)
    requires i + 1 < |s| && tag == Some(v) && t == i + 1 + |Name(v)| && t <= |s|
    ensures VoidNoAttrsAfter(s, i, tag) == CloseAfterName(s, v, t + Span(s, t, RegexSpace))
  {
  }

  /** `--+>` at `p` ending at `e` closes the tag as `<v>`. */
  lemma CloseAfterNameFound(s: string, v: VoidTag, t: nat, p: nat, e: nat, m: Option<Match>)
    requires t <= p <= |s| && t + Span(s, t, RegexSpace) == p && DashesClose(s, p) && CloseEnd(s, p) == e + 1
    requires m == CloseAfterName(s, v, t + Span(s, t, RegexSpace))
    ensures m == Some(Match(e + 1, "<" + Name(v) + ">"))
  {
  }

  /** The third expression after the tag name `v`, which ends at `t`: the
      white space up to `p`, then `--+>` up to `e`. */
  lemma VoidNoAttrsAt(s: string, i: nat, v: VoidTag, t: nat, p: nat, e: nat)
    requires i + 1 < |s| && s[i] == '<' && TagAt(s, i + 1) == Some(v) && t == i + 1 + |Name(v)|
    requires t <= p <= |s| && t + Span(s, t, RegexSpace) == p && DashesClose(s, p) && CloseEnd(s, p) == e + 1
    ensures MatchAt(VoidNoAttrs, s, i) == Some(Match(e + 1, "<" + Name(v) + ">"))
  {
    MatchAtVoidNoAttrs(s, i);
    VoidNoAttrsTries(s, i, v, t);
    CloseAfterNameFound(s, v, t, p, e, MatchVoidNoAttrs(s, i));
  }

  lemma {:induction false} LazyAttrsStops(s: string, q: nat, p: nat, e: nat)
    requires q < p <= e < |s|
    requires forall k :: p - 1 <= k < e ==> s[k] != '>'
    requires s[e - 1] != '-' && DashesClose(s, e)
    ensures LazyAttrs(s, q, p) == Some(e)
    decreases e - p
  {
    if p < e {
      assert !DashesClose(s, p) by {
        SpanChars(s, p, Dash);
      }
      LazyAttrsStops(s, q, p + 1, e);
    }
  }

  /** The attribute search from `q` stops at the dashes that close the tag. */
  lemma AttrsFound(s: string, q: nat, e: nat, f: nat)
    requires q < e && DashesThenClose(s, e, f) && s[e - 1] != '-'
    requires forall k :: q <= k < e ==> s[k] != '>'
    ensures LazyAttrs(s, q, q + 1) == Some(e) && CloseEnd(s, e) == f + 1
  {
    DashesCloseAt(s, e, f);
    LazyAttrsStops(s, q, q + 1, e);
  }

  /** With white space of width `q - t` after the name and the attributes
      ending at `p`, the widest try succeeds. */
  lemma TryWidthsWidest(s: string, v: VoidTag, t: nat, q: nat, p: nat, m: Option<Match>)
    requires t < q <= |s| && LazyAttrs(s, q, q + 1) == Some(p)
    requires m == TryWidths(s, v, t, q - t)
    ensures m == Some(Match(CloseEnd(s, p), "<" + Name(v) + " " + s[q..p] + ">"))
  {
  }

  /** At a `<` the second expression is tried by `MatchVoidWithAttrs`. */
  lemma MatchAtVoidWithAttrs(s: string, i: nat)
    requires i + 1 < |s| && s[i] == '<'
    ensures MatchAt(VoidWithAttrs, s, i) == MatchVoidWithAttrs(s, i)
  {
  }

  /** Once the tag name is found, the second expression tries the widths of
      the white space that follows it, widest first. */
  lemma VoidWithAttrsTries(s: string, i: nat, v: VoidTag, t: nat, l: nat)
    requires i + 1 < |s| && TagAt(s, i + 1) == Some(v) && t == i + 1 + |Name(v)|
    requires Span(s, t, RegexSpace) == l
    ensures MatchVoidWithAttrs(s, i) == TryWidths(s, v, t, l)
  {
    VoidWithAttrsAfterTag(s, i, v, t, l, TagAt(s, i + 1));
  }

  lemma VoidWithAttrsAfterTag(s: string, i: nat, v: VoidTag, t: nat, l: nat, tag: Option<VoidTag>)
    requires i + 1 < |s| && tag == Some(v) && t == i + 1 + |Name(v)| && t <= |s|
    requires Span(s, t, RegexSpace) == l
    ensures VoidWithAttrsAfter(s, i, tag) == TryWidths(s, v, t, l)
  {
  }

  lemma MatchVoidWithAttrsAt(s: string, i: nat, v: VoidTag, t: nat, q: nat, e: nat, f: nat)
    requires i + 1 < |s| && s[i] == '<' && TagAt(s, i + 1) == Some(v) && t == i + 1 + |Name(v)|
    requires t < q <= |s| && Span(s, t, RegexSpace) == q - t
    requires LazyAttrs(s, q, q + 1) == Some(e) && CloseEnd(s, e) == f + 1
    ensures MatchAt(VoidWithAttrs, s, i) == Some(Match(f + 1, "<" + Name(v) + " " + s[q..e] + ">"))
  {
    MatchAtVoidWithAttrs(s, i);
    VoidWithAttrsTries(s, i, v, t, q - t);
    TryWidthsWidest(s, v, t, q, e, MatchVoidWithAttrs(s, i));
  }

  /** What the second expression's groups find in `<tag ws attrs dashes>`. */
  lemma VoidWithAttrsParts(s: string, i: nat, v: VoidTag, t: nat, q: nat, e: nat, f: nat)
    requires BrokenVoidWithAttrs(s, i, v, q, e, f) && t == i + 1 + |Name(v)|
    ensures i + 1 < |s| && TagAt(s, i + 1) == Some(v)
    ensures Span(s, t, RegexSpace) == q - t
    ensures LazyAttrs(s, q, q + 1) == Some(e) && CloseEnd(s, e) == f + 1
  {
    TagAtPresent(s, i + 1, v);
    SpanExact(s, t, q, RegexSpace);
    AttrsFound(s, q, e, f);
  }

  /** Wherever `<tag ws attrs dashes>` occurs for a void tag, the second
      expression matches it whole and replaces it by `<tag attrs>`: the white
      space collapses to one space and the attributes are kept as written. */
  lemma VoidWithAttrsRepaired(s: string, i: nat, v: VoidTag, q: nat, e: nat, f: nat)
    requires BrokenVoidWithAttrs(s, i, v, q, e, f)
    ensures MatchAt(VoidWithAttrs, s, i) == Some(Match(f + 1, "<" + Name(v) + " " + s[q..e] + ">"))
  {
    var t := i + 1 + |Name(v)|;
    VoidWithAttrsParts(s, i, v, t, q, e, f);
    MatchVoidWithAttrsAt(s, i, v, t, q, e, f);
  }

  /** Void tag names are letters only. */
  lemma NameIsLetters(v: VoidTag)
    ensures |Name(v)| >= 2 && forall k :: 0 <= k < |Name(v)| ==> IsLetter(Name(v)[k])
  {
  }

  /** The output of a repair, which ends in its only `>` and not after a
      dash, holds no `-->`. */
  lemma RepairedHasNoArrow(r: string)
    requires |r| >= 2 && r[|r| - 1] == '>' && r[|r| - 2] != '-'
    requires forall k :: 0 <= k < |r| - 1 ==> r[k] != '>'
    ensures forall k :: !ArrowAt(r, k)
  {
  }

  /** A repaired tag `<...>` goes through the later stages unchanged. */
  lemma RepairedIsFinal(r: string)
    requires |r| >= 2 && r[0] == '<' && r[|r| - 1] == '>' && r[|r| - 2] != '-'
    requires forall k :: 0 <= k < |r| - 1 ==> r[k] != '>'
    ensures ReplaceAll(VoidWithAttrs, r) == r && ReplaceAll(VoidNoAttrs, r) == r && TrimSpace(r) == r
  {
    RepairedHasNoArrow(r);
    ReplaceAllWithoutArrow(VoidWithAttrs, r);
    ReplaceAllWithoutArrow(VoidNoAttrs, r);
    TrimSpaceOfTrimmed(r);
  }

  /** A document that is one broken tag `<name ws dashes>` comes out as
      `<name>`. */
  lemma CleanBrokenTag(html: string, t: nat, p: nat)
    requires html != [] && BrokenTag(html, 0, t, p, |html| - 1)
    ensures CleanHTML(html) == "<" + html[1..t] + ">"
  {
    var h1 := "<" + html[1..t] + ">";
    assert ReplaceAll(MalformedTag, html) == h1 by {
      MalformedTagRepaired(html, 0, t, p, |html| - 1);
      ReplaceAllOneMatch(MalformedTag, html, Match(|html|, h1));
    }
    assert ReplaceAll(VoidWithAttrs, h1) == h1 && ReplaceAll(VoidNoAttrs, h1) == h1 && TrimSpace(h1) == h1 by {
      forall k | 0 <= k < |h1| - 1
        ensures h1[k] != '>'
      {
        if k > 0 {
          assert h1[k] == html[k] && IsAlnum(html[k]);
        }
      }
      RepairedIsFinal(h1);
    }
    CleanStages(html, h1, h1, h1);
  }

  /** A document that is one void tag with a broken end, `<br-->` say, comes
      out as `<br>`.  The first expression already repairs it, since every
      void tag name is a tag name. */
  lemma CleanBrokenVoid(html: string, v: VoidTag, p: nat)
    requires html != [] && BrokenVoid(html, 0, v, p, |html| - 1)
    ensures CleanHTML(html) == "<" + Name(v) + ">"
  {
    var t := 1 + |Name(v)|;
    assert BrokenTag(html, 0, t, p, |html| - 1) && html[1..t] == Name(v) by {
      NameIsLetters(v);
      OccursAtChars(html, 1, Name(v));
      assert forall k :: 1 <= k < t ==> html[k] == Name(v)[k - 1];
    }
    CleanBrokenTag(html, t, p);
  }

  /** At the start of `<tag ws attrs dashes>` the first expression finds the
      name and the white space followed by the attributes, not `--+>`. */
  lemma MalformedTagMissesAttrs(s: string, v: VoidTag, q: nat, e: nat, f: nat)
    requires BrokenVoidWithAttrs(s, 0, v, q, e, f)
    ensures MatchMalformedTag(s, 0).None?
  {
    var t := 1 + |Name(v)|;
    assert !IsAlnum(s[t]) by {
      assert IsRegexSpace(s[t]);
    }
    VoidNameIsTagName(s, 0, v, t);
    assert t + Span(s, t, RegexSpace) == q by {
      SpanExact(s, t, q, RegexSpace);
    }
    assert !DashesClose(s, q) by {
      SpanChars(s, q, Dash);
    }
    MalformedTagFails(s, 0, t, q);
  }

  /** A void tag name followed by a character other than a letter or digit
      is what the name group of the first expression takes. */
  lemma VoidNameIsTagName(s: string, i: nat, v: VoidTag, t: nat)
    requires OccursAt(s, i + 1, Name(v)) && t == i + 1 + |Name(v)| && t < |s| && !IsAlnum(s[t])
    ensures i + 2 <= |s| && i + 2 + Span(s, i + 2, Alnum) == t
  {
    NameIsLetters(v);
    OccursAtChars(s, i + 1, Name(v));
    assert forall k :: i + 2 <= k < t ==> s[k] == Name(v)[k - i - 1];
    SpanExact(s, i + 2, t, Alnum);
  }

  /** The first expression fails where the name and the white space after
      it are not followed by `--+>`. */
  lemma MalformedTagFails(s: string, i: nat, t: nat, p: nat)
    requires i + 1 < |s| && i + 2 <= |s| && t == i + 2 + Span(s, i + 2, Alnum)
    requires t + Span(s, t, RegexSpace) == p && !DashesClose(s, p)
    ensures MatchMalformedTag(s, i).None?
  {
  }

  /** `<tag ws attrs dashes>` with no `<` in the attributes passes the first
      rewrite unchanged. */
  lemma FirstRewriteKeepsVoidWithAttrs(s: string, v: VoidTag, q: nat, e: nat)
    requires s != [] && BrokenVoidWithAttrs(s, 0, v, q, e, |s| - 1)
    requires forall k :: q <= k < e ==> s[k] != '<'
    ensures ReplaceAll(MalformedTag, s) == s
  {
    var t := 1 + |Name(v)|;
    assert forall k :: 0 < k < t ==> s[k] != '<' by {
      NameIsLetters(v);
      OccursAtChars(s, 1, Name(v));
      assert forall k :: 0 < k < t ==> s[k] == Name(v)[k - 1];
    }
    forall k | 0 <= k < |s|
      ensures MatchAt(MalformedTag, s, k).None?
    {
      if k == 0 {
        MalformedTagMissesAttrs(s, v, q, e, |s| - 1);
      } else {
        assert s[k] != '<' by {
          if t <= k < q {
            assert IsRegexSpace(s[k]);
          } else if e <= k < |s| - 1 {
            assert s[k] == '-';
          }
        }
      }
    }
    ScanWithoutMatches(MalformedTag, s, 0);
    assert s[0..] == s;
  }

  /** `<tag attrs>` for attributes without `>` and not ending in a dash goes
      through the last stages unchanged. */
  lemma VoidRepairIsFinal(v: VoidTag, attrs: string)
    requires |attrs| >= 1 && attrs[|attrs| - 1] != '-'
    requires forall k :: 0 <= k < |attrs| ==> attrs[k] != '>'
    ensures var r := "<" + Name(v) + " " + attrs + ">"; ReplaceAll(VoidNoAttrs, r) == r && TrimSpace(r) == r
  {
    var r := "<" + Name(v) + " " + attrs + ">";
    var n := 2 + |Name(v)|;
    assert forall k :: 0 <= k < n ==> r[k] != '>' by {
      NameIsLetters(v);
      assert forall k :: 1 <= k < n - 1 ==> r[k] == Name(v)[k - 1];
    }
    assert forall k :: n <= k < |r| - 1 ==> r[k] == attrs[k - n];
    RepairedIsFinal(r);
  }

  /** The second rewrite takes `<tag ws attrs dashes>` to `<tag attrs>`. */
  lemma SecondRewriteOfVoidWithAttrs(html: string, v: VoidTag, q: nat, e: nat)
    requires html != [] && BrokenVoidWithAttrs(html, 0, v, q, e, |html| - 1)
    ensures ReplaceAll(VoidWithAttrs, html) == "<" + Name(v) + " " + html[q..e] + ">"
  {
    VoidWithAttrsRepaired(html, 0, v, q, e, |html| - 1);
    ReplaceAllOneMatch(VoidWithAttrs, html, MatchAt(VoidWithAttrs, html, 0).value);
  }

  /** The repaired `<tag attrs>` goes through the last stages unchanged. */
  lemma LastStagesOfVoidWithAttrs(html: string, v: VoidTag, q: nat, e: nat)
    requires html != [] && BrokenVoidWithAttrs(html, 0, v, q, e, |html| - 1)
    ensures var r := "<" + Name(v) + " " + html[q..e] + ">"; ReplaceAll(VoidNoAttrs, r) == r && TrimSpace(r) == r
  {
    var attrs := html[q..e];
    assert forall k :: 0 <= k < |attrs| ==> attrs[k] == html[q + k];
    VoidRepairIsFinal(v, attrs);
  }

  /** A document that is one void tag with attributes and a broken end comes
      out as `<tag attrs>`, provided the attributes hold no `<`. */
  lemma CleanBrokenVoidWithAttrs(html: string, v: VoidTag, q: nat, e: nat)
    requires html != [] && BrokenVoidWithAttrs(html, 0, v, q, e, |html| - 1)
    requires forall k :: q <= k < e ==> html[k] != '<'
    ensures CleanHTML(html) == "<" + Name(v) + " " + html[q..e] + ">"
  {
    var h2 := "<" + Name(v) + " " + html[q..e] + ">";
    FirstRewriteKeepsVoidWithAttrs(html, v, q, e);
    SecondRewriteOfVoidWithAttrs(html, v, q, e);
    LastStagesOfVoidWithAttrs(html, v, q, e);
    CleanStages(html, html, h2, h2);
  }

  /** `<img src="x" -->` becomes `<img src="x" >`: the lazy attribute group
      stops at the first `--+>`, so the space before the dashes stays. */
  lemma CleanImgWithSpacedArrow()
    ensures CleanHTML("<img src=\"x\" -->") == "<img src=\"x\" >"
  {
    var html := "<img src=\"x\" -->";
    SpacedArrowShape();
    assert "<" + Name(Img) + " " + html[5..13] + ">" == "<img src=\"x\" >" by {
      assert html[5..13] == "src=\"x\" ";
    }
    CleanBrokenVoidWithAttrs(html, Img, 5, 13);
  }

  lemma SpacedArrowShape()
    ensures BrokenVoidWithAttrs("<img src=\"x\" -->", 0, Img, 5, 13, 15)
    ensures forall k :: 5 <= k < 13 ==> "<img src=\"x\" -->"[k] != '<'
  {
    assert OccursAt("<img src=\"x\" -->", 1, Name(Img));
  }
}
