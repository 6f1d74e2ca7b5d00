/** The text helpers of the scraper-config generator
    (`telegram_bot/utility_scripts/generate_scraper_config.py`): upgrading a
    search template with `{category}` and `{page}` placeholders, turning an
    example search URL's path into a template, the slug forms of a search
    term, the default output file name, the `websites = ...` block writer and
    the `upsert` that records a site's search URL. */
module ScraperConfig {
  import opened Wrappers
  import opened Strings
  import Seqs

  // ---------------------------------------------------------------------
  // Left-to-right regular-expression substitution (`re.search` / `re.sub`)
  // ---------------------------------------------------------------------

  /** A matcher gives the length of the match at the start of its argument,
      0 when there is none; a match is never empty. */
  predicate Matches(s: string, m: string -> nat) {
    0 < m(s) <= |s|
  }

  /** `re.search(pattern, s)` found something. */
  predicate HasMatch(s: string, m: string -> nat)
    decreases |s|
  {
    |s| > 0 && (Matches(s, m) || HasMatch(s[1..], m))
  }

  /** `re.sub(pattern, rep, s)`: every non-overlapping match, scanning left
      to right, becomes `rep`. */
  function SubAll(s: string, m: string -> nat, rep: string): (r: string)
    ensures !HasMatch(s, m) ==> r == s
    decreases |s|
  {
    if |s| == 0 then ""
    else if Matches(s, m) then rep + SubAll(s[m(s)..], m, rep)
    else [s[0]] + SubAll(s[1..], m, rep)
  }

  lemma {:induction false} HasMatchAt(s: string, m: string -> nat, i: nat)
    requires i < |s| && Matches(s[i..], m)
    ensures HasMatch(s, m)
    decreases i
  {
    if i > 0 {
      assert s[1..][i - 1..] == s[i..];
      HasMatchAt(s[1..], m, i - 1);
    }
  }

  /** When every match starts with `c` and `c` occurs only at position `k`,
      where nothing matches, nothing matches anywhere. */
  lemma {:induction false} NoMatchExcept(s: string, m: string -> nat, c: char, k: int)
    requires forall t :: Matches(t, m) ==> t[0] == c
    requires forall i :: 0 <= i < |s| && i != k ==> s[i] != c
    requires 0 <= k < |s| ==> !Matches(s[k..], m)
    ensures !HasMatch(s, m)
    decreases |s|
  {
    if |s| > 0 {
      assert !Matches(s, m);
      if 1 <= k < |s| {
        assert s[1..][k - 1..] == s[k..];
      }
      NoMatchExcept(s[1..], m, c, k - 1);
    }
  }

  /** The substitution passes over a match-free prefix, replaces the first
      match and carries on after it. */
  lemma {:induction false} SubAllAround(pre: string, mid: string, post: string, m: string -> nat, rep: string)
    requires |mid| > 0 && m(mid + post) == |mid|
    requires forall i :: 0 <= i < |pre| ==> !Matches((pre + mid + post)[i..], m)
    ensures SubAll(pre + mid + post, m, rep) == pre + rep + SubAll(post, m, rep)
    decreases |pre|
  {
    var s := pre + mid + post;
    if |pre| == 0 {
      assert s == mid + post;
      assert s[|mid|..] == post;
    } else {
      assert s[0..] == s;
      var t := pre[1..] + mid + post;
      Seqs.TailOfAppend(pre + mid, post);
      Seqs.TailOfAppend(pre, mid);
      assert s[1..] == t;
      forall i | 0 <= i < |pre| - 1
        ensures !Matches(t[i..], m)
      {
        Seqs.DropOfTail(s, i);
      }
      SubAllAround(pre[1..], mid, post, m, rep);
      Seqs.HeadTail(pre);
      Seqs.ConsAppend3(pre[0], pre[1..], rep, SubAll(post, m, rep));
    }
  }

  /** Whenever something matched, the replacement is in the result. */
  lemma {:induction false} SubAllContains(s: string, m: string -> nat, rep: string)
    requires HasMatch(s, m)
    ensures Contains(SubAll(s, m, rep), rep)
    decreases |s|
  {
    if Matches(s, m) {
      ContainsSelf(rep);
      ContainsInPrefix(rep, SubAll(s[m(s)..], m, rep), rep);
    } else {
      SubAllContains(s[1..], m, rep);
      ContainsInSuffix([s[0]], SubAll(s[1..], m, rep), rep);
    }
  }

  lemma ContainsTrans(s: string, mid: string, sub: string)
    requires Contains(s, mid) && Contains(mid, sub)
    ensures Contains(s, sub)
  {
    ContainsIff(s, mid);
    ContainsIff(mid, sub);
    var i :| OccursAt(s, mid, i);
    var j :| OccursAt(mid, sub, j);
    assert s[i..i + |mid|] == mid;
    forall k | 0 <= k < |sub|
      ensures s[i + j..i + j + |sub|][k] == sub[k]
    {
      assert s[i + j..i + j + |sub|][k] == s[i..i + |mid|][j + k];
      assert mid[j..j + |sub|][k] == mid[j + k];
    }
    assert s[i + j..i + j + |sub|] == sub;
    ContainsAt(s, sub, i + j);
  }

  // ---------------------------------------------------------------------
  // `_upgrade_template_with_placeholders`
  // ---------------------------------------------------------------------

  const QueryOpen := "{query}/"
  const CategoryPlaceholder := "{category}"
  const PagePlaceholder := "{page}"
  const CategoryPageTail := "{query}/{category}/{page}/"
  const PageTail := "{query}/{page}/"
  const DefaultTail := "/{category}/{page}/"

  predicate NotSlash(c: char) { c != '/' }

  /** The length of the longest prefix of `s` whose characters satisfy `P`. */
  function Span(s: string, P: char -> bool): (n: nat)
    ensures n <= |s|
    ensures forall i :: 0 <= i < n ==> P(s[i])
    ensures n == |s| || !P(s[n])
  {
    if |s| == 0 || !P(s[0]) then 0 else 1 + Span(s[1..], P)
  }

  lemma {:induction false} SpanOf(x: string, c: char, rest: string, P: char -> bool)
    requires forall i :: 0 <= i < |x| ==> P(x[i])
    requires !P(c)
    ensures Span(x + [c] + rest, P) == |x|
    decreases |x|
  {
    if |x| == 0 {
      assert (x + [c] + rest)[0] == c;
    } else {
      assert (x + [c] + rest)[1..] == x[1..] + [c] + rest;
      SpanOf(x[1..], c, rest, P);
    }
  }

  /** `\{query\}/[^/]+/\d+/` at the start of `s`. Both runs are maximal:
      neither can give characters back, since what follows each is `/`. */
  function MatchCategoryPage(s: string): (n: nat)
    ensures n <= |s|
    ensures n > 0 ==> StartsWith(s, QueryOpen) && s[0] == '{' && s[n - 1] == '/'
  {
    if !StartsWith(s, QueryOpen) then 0
    else
      var a := s[|QueryOpen|..];
      var seg := Span(a, NotSlash);
      if seg == 0 || seg == |a| then 0
      else
        var b := a[seg + 1..];
        var d := Span(b, IsDigit);
        if d == 0 || d == |b| || b[d] != '/' then 0
        else |QueryOpen| + seg + 1 + d + 1
  }

  /** `\{query\}/\d+/` at the start of `s`. */
  function MatchPage(s: string): (n: nat)
    ensures n <= |s|
    ensures n > 0 ==> StartsWith(s, QueryOpen) && s[0] == '{' && s[n - 1] == '/'
  {
    if !StartsWith(s, QueryOpen) then 0
    else
      var b := s[|QueryOpen|..];
      var d := Span(b, IsDigit);
      if d == 0 || d == |b| || b[d] != '/' then 0
      else |QueryOpen| + d + 1
  }

  /** `_upgrade_template_with_placeholders`: a template that already has
      both placeholders, or a query-string template the two path patterns
      miss, is kept; otherwise the `{query}/<segment>/<n>/` or `{query}/<n>/`
      pattern is rewritten, or the placeholders are appended to the path. */
  function UpgradeTemplate(tpl: string): (r: string)
    ensures Contains(tpl, CategoryPlaceholder) && Contains(tpl, PagePlaceholder) ==> r == tpl
    ensures !HasMatch(tpl, MatchCategoryPage) && !HasMatch(tpl, MatchPage) && Contains(tpl, "?") ==> r == tpl
  {
    if Contains(tpl, CategoryPlaceholder) && Contains(tpl, PagePlaceholder) then tpl
    else if HasMatch(tpl, MatchCategoryPage) then SubAll(tpl, MatchCategoryPage, CategoryPageTail)
    else if HasMatch(tpl, MatchPage) then SubAll(tpl, MatchPage, PageTail)
    else if Contains(tpl, "?") then tpl
    else RStrip(tpl, {'/'}) + DefaultTail
  }

  lemma UpgradeTakesCategoryPage(tpl: string)
    requires !(Contains(tpl, CategoryPlaceholder) && Contains(tpl, PagePlaceholder))
    requires HasMatch(tpl, MatchCategoryPage)
    ensures UpgradeTemplate(tpl) == SubAll(tpl, MatchCategoryPage, CategoryPageTail)
  {
  }

  lemma UpgradeTakesPage(tpl: string)
    requires !(Contains(tpl, CategoryPlaceholder) && Contains(tpl, PagePlaceholder))
    requires !HasMatch(tpl, MatchCategoryPage) && HasMatch(tpl, MatchPage)
    ensures UpgradeTemplate(tpl) == SubAll(tpl, MatchPage, PageTail)
  {
  }

  /** A prefix without `{` holds no match start. */
  lemma NoMatchInPrefix(pre: string, rest: string, m: string -> nat)
    requires NoBrace(pre)
    requires forall t :: Matches(t, m) ==> t[0] == '{'
    ensures forall i :: 0 <= i < |pre| ==> !Matches((pre + rest)[i..], m)
  {
    forall i | 0 <= i < |pre|
      ensures !Matches((pre + rest)[i..], m)
    {
      assert (pre + rest)[i..][0] == pre[i];
    }
  }

  /** One match between brace-free text is found and replaced. */
  lemma SubstituteOnce(pre: string, mid: string, post: string, m: string -> nat, rep: string)
    requires NoBrace(pre) && NoBrace(post)
    requires forall t :: Matches(t, m) ==> t[0] == '{'
    requires |mid| > 0 && m(mid + post) == |mid|
    ensures HasMatch(pre + mid + post, m)
    ensures SubAll(pre + mid + post, m, rep) == pre + rep + post
  {
    var tpl := pre + mid + post;
    NoMatchInPrefix(pre, mid + post, m);
    assert tpl == pre + (mid + post);
    assert HasMatch(tpl, m) by {
      assert tpl[|pre|..] == mid + post;
      HasMatchAt(tpl, m, |pre|);
    }
    assert SubAll(post, m, rep) == post by {
      NoMatchExcept(post, m, '{', -1);
    }
    SubAllAround(pre, mid, post, m, rep);
  }

  lemma PlaceholdersInTails()
    ensures Contains(CategoryPageTail, PagePlaceholder) && Contains(CategoryPageTail, CategoryPlaceholder)
    ensures Contains(PageTail, PagePlaceholder)
    ensures Contains(DefaultTail, PagePlaceholder) && Contains(DefaultTail, CategoryPlaceholder)
  {
    CategoryPageTailHolds();
    PageTailHolds();
    DefaultTailHolds();
  }

  lemma CategoryPageTailHolds()
    ensures Contains(CategoryPageTail, PagePlaceholder) && Contains(CategoryPageTail, CategoryPlaceholder)
  {
    assert CategoryPageTail[19..25] == PagePlaceholder;
    ContainsAt(CategoryPageTail, PagePlaceholder, 19);
    assert CategoryPageTail[8..18] == CategoryPlaceholder;
    ContainsAt(CategoryPageTail, CategoryPlaceholder, 8);
  }

  lemma PageTailHolds()
    ensures Contains(PageTail, PagePlaceholder)
  {
    assert PageTail[8..14] == PagePlaceholder;
    ContainsAt(PageTail, PagePlaceholder, 8);
  }

  lemma DefaultTailHolds()
    ensures Contains(DefaultTail, PagePlaceholder) && Contains(DefaultTail, CategoryPlaceholder)
  {
    assert DefaultTail[12..18] == PagePlaceholder;
    ContainsAt(DefaultTail, PagePlaceholder, 12);
    assert DefaultTail[1..11] == CategoryPlaceholder;
    ContainsAt(DefaultTail, CategoryPlaceholder, 1);
  }

  /** Every path-based template comes out with a `{page}` placeholder, and
      with a `{category}` one unless the page-only rule applied: what the
      generic scraper needs to page through results. */
  lemma UpgradeProvidesPage(tpl: string)
    requires !Contains(tpl, "?")
    ensures Contains(UpgradeTemplate(tpl), PagePlaceholder)
    ensures Contains(UpgradeTemplate(tpl), CategoryPlaceholder) || HasMatch(tpl, MatchPage)
  {
    var r := UpgradeTemplate(tpl);
    PlaceholdersInTails();
    if Contains(tpl, CategoryPlaceholder) && Contains(tpl, PagePlaceholder) {
    } else if HasMatch(tpl, MatchCategoryPage) {
      SubAllContains(tpl, MatchCategoryPage, CategoryPageTail);
      ContainsTrans(r, CategoryPageTail, PagePlaceholder);
      ContainsTrans(r, CategoryPageTail, CategoryPlaceholder);
    } else if HasMatch(tpl, MatchPage) {
      SubAllContains(tpl, MatchPage, PageTail);
      ContainsTrans(r, PageTail, PagePlaceholder);
    } else {
      ContainsInSuffix(RStrip(tpl, {'/'}), DefaultTail, PagePlaceholder);
      ContainsInSuffix(RStrip(tpl, {'/'}), DefaultTail, CategoryPlaceholder);
    }
  }

  predicate NoBrace(s: string) {
    forall i :: 0 <= i < |s| ==> s[i] != '{'
  }

  lemma MatchCategoryPageOf(seg: string, digits: string, post: string)
    requires |seg| > 0 && forall i :: 0 <= i < |seg| ==> seg[i] != '/'
    requires |digits| > 0 && AllDigits(digits)
    ensures var mid := QueryOpen + seg + "/" + digits + "/";
            MatchCategoryPage(mid + post) == |mid|
  {
    var s := QueryOpen + seg + "/" + digits + "/" + post;
    assert s[..|QueryOpen|] == QueryOpen;
    var a := s[|QueryOpen|..];
    assert a == seg + ['/'] + (digits + "/" + post);
    SpanOf(seg, '/', digits + "/" + post, NotSlash);
    var b := a[|seg| + 1..];
    assert b == digits + ['/'] + post;
    SpanOf(digits, '/', post, IsDigit);
  }

  lemma MatchPageOf(digits: string, post: string)
    requires |digits| > 0 && AllDigits(digits)
    ensures var mid := QueryOpen + digits + "/";
            MatchPage(mid + post) == |mid|
  {
    var s := QueryOpen + digits + "/" + post;
    assert s[..|QueryOpen|] == QueryOpen;
    var b := s[|QueryOpen|..];
    assert b == digits + ['/'] + post;
    SpanOf(digits, '/', post, IsDigit);
  }

  /** `{query}/<segment>/<n>/` with the category and page placeholders missing
      becomes `{query}/{category}/{page}/`, the rest of the template kept. */
  lemma UpgradeCategoryPage(pre: string, seg: string, digits: string, post: string)
    requires NoBrace(pre) && NoBrace(post)
    requires |seg| > 0 && forall i :: 0 <= i < |seg| ==> seg[i] != '/'
    requires |digits| > 0 && AllDigits(digits)
    requires var tpl := pre + QueryOpen + seg + "/" + digits + "/" + post;
             !(Contains(tpl, CategoryPlaceholder) && Contains(tpl, PagePlaceholder))
    ensures UpgradeTemplate(pre + QueryOpen + seg + "/" + digits + "/" + post) == pre + CategoryPageTail + post
  {
    var mid := QueryOpen + seg + "/" + digits + "/";
    var tpl := pre + mid + post;
    assert tpl == pre + QueryOpen + seg + "/" + digits + "/" + post;
    MatchCategoryPageOf(seg, digits, post);
    SubstituteOnce(pre, mid, post, MatchCategoryPage, CategoryPageTail);
    UpgradeTakesCategoryPage(tpl);
  }

  /** The category pattern does not match `{query}/<n>/` when no digit follows. */
  lemma CategoryPageMissesDigitless(digits: string, post: string)
    requires |digits| > 0 && AllDigits(digits)
    requires |post| == 0 || !IsDigit(post[0])
    ensures !Matches(QueryOpen + digits + "/" + post, MatchCategoryPage)
  {
    var s := QueryOpen + digits + "/" + post;
    var a := s[|QueryOpen|..];
    assert a == digits + ['/'] + post;
    SpanOf(digits, '/', post, NotSlash);
    assert a[|digits| + 1..] == post;
  }

  /** In `pre + "{query}/" + rest`, with no `{` in `pre` or `rest`, the only
      `{` is the one opening `{query}`. */
  lemma OnlyQueryBrace(pre: string, rest: string)
    requires NoBrace(pre) && NoBrace(rest)
    ensures var tpl := pre + QueryOpen + rest;
            forall i :: 0 <= i < |tpl| && i != |pre| ==> tpl[i] != '{'
  {
    var tpl := pre + QueryOpen + rest;
    forall i | 0 <= i < |tpl| && i != |pre|
      ensures tpl[i] != '{'
    {
      if i < |pre| {
        assert tpl[i] == pre[i];
      } else if i < |pre| + |QueryOpen| {
        assert tpl[i] == QueryOpen[i - |pre|];
      } else {
        assert tpl[i] == rest[i - |pre| - |QueryOpen|];
      }
    }
  }

  lemma DigitsThenPostNoBrace(digits: string, post: string)
    requires AllDigits(digits) && NoBrace(post)
    ensures NoBrace(digits + "/" + post)
  {
    var rest := digits + "/" + post;
    forall i | 0 <= i < |rest|
      ensures rest[i] != '{'
    {
      if i < |digits| {
        assert rest[i] == digits[i];
      } else if i > |digits| {
        assert rest[i] == post[i - |digits| - 1];
      }
    }
  }

  /** The category pattern matches nowhere in `pre + "{query}/<n>/" + post`
      when no digit follows. */
  lemma NoCategoryPageBeforeDigitless(pre: string, digits: string, post: string)
    requires NoBrace(pre) && NoBrace(post)
    requires |digits| > 0 && AllDigits(digits)
    requires |post| == 0 || !IsDigit(post[0])
    ensures !HasMatch(pre + QueryOpen + digits + "/" + post, MatchCategoryPage)
  {
    var rest := digits + "/" + post;
    var tail := QueryOpen + rest;
    var tpl := pre + tail;
    Seqs.Assoc(pre, QueryOpen, rest);
    Seqs.Assoc3(pre + QueryOpen, digits, "/", post);
    Seqs.Assoc3(QueryOpen, digits, "/", post);
    DigitsThenPostNoBrace(digits, post);
    OnlyQueryBrace(pre, rest);
    CategoryPageMissesDigitless(digits, post);
    Seqs.DropPrefix(pre, tail);
    NoMatchExcept(tpl, MatchCategoryPage, '{', |pre|);
  }

  /** `{query}/<n>/` (not followed by a digit) with the placeholders missing
      becomes `{query}/{page}/`. */
  lemma UpgradePage(pre: string, digits: string, post: string)
    requires NoBrace(pre) && NoBrace(post)
    requires |digits| > 0 && AllDigits(digits)
    requires |post| == 0 || !IsDigit(post[0])
    requires var tpl := pre + QueryOpen + digits + "/" + post;
             !(Contains(tpl, CategoryPlaceholder) && Contains(tpl, PagePlaceholder))
    ensures UpgradeTemplate(pre + QueryOpen + digits + "/" + post) == pre + PageTail + post
  {
    var mid := QueryOpen + digits + "/";
    var tpl := pre + mid + post;
    assert tpl == pre + QueryOpen + digits + "/" + post;
    NoCategoryPageBeforeDigitless(pre, digits, post);
    MatchPageOf(digits, post);
    SubstituteOnce(pre, mid, post, MatchPage, PageTail);
    UpgradeTakesPage(tpl);
  }

  /** A plain path template (no placeholder, no query string) loses its
      trailing slashes and gets `/{category}/{page}/` appended. */
  lemma UpgradePlainPath(tpl: string)
    requires NoBrace(tpl) && !Contains(tpl, "?")
    ensures UpgradeTemplate(tpl) == RStrip(tpl, {'/'}) + DefaultTail
  {
    NoFirstCharNoOccurrence(tpl, CategoryPlaceholder);
    NoMatchExcept(tpl, MatchCategoryPage, '{', -1);
    NoMatchExcept(tpl, MatchPage, '{', -1);
  }

  // ---------------------------------------------------------------------
  // `_slug_variants` and the path branch of `_derive_template_from_example`
  // ---------------------------------------------------------------------

  /** `_slug_variants`: the forms a search term may take in an example URL.
      `quote` and `quotePlus` stand for `urllib.parse.quote` and `quote_plus`. */
  function SlugVariants(term: string, quote: string -> string, quotePlus: string -> string): (r: set<string>)
    ensures Strip(term) in r && LowerStr(Strip(term)) in r
    ensures quote(LowerStr(Strip(term))) in r && quotePlus(LowerStr(Strip(term))) in r
    ensures var ws := Words(LowerStr(Strip(term)));
            |ws| > 0 ==> Join("-", ws) in r && Join("_", ws) in r && Join("+", ws) in r
  {
    var t := Strip(term);
    var tl := LowerStr(t);
    var words := Words(tl);
    var joined := if |words| > 0 then {Join("-", words), Join("_", words), Join("+", words)} else {};
    {t, tl} + joined + {quote(tl), quotePlus(tl)}
  }

  predicate IsWord(w: string) {
    |w| > 0 && forall i :: 0 <= i < |w| ==> !IsSpace(w[i])
  }

  lemma {:induction false} TakeWordOf(w: string, rest: string)
    requires forall i :: 0 <= i < |w| ==> !IsSpace(w[i])
    requires |rest| == 0 || IsSpace(rest[0])
    ensures TakeWord(w + rest) == w
    decreases |w|
  {
    if |w| == 0 {
    } else {
      assert (w + rest)[1..] == w[1..] + rest;
      TakeWordOf(w[1..], rest);
      assert w == [w[0]] + w[1..];
    }
  }

  /** Words joined by single spaces split back into those words. */
  lemma {:induction false} WordsOfJoin(ws: seq<string>)
    requires |ws| > 0 && forall k :: 0 <= k < |ws| ==> IsWord(ws[k])
    ensures Words(Join(" ", ws)) == ws
    decreases |ws|
  {
    var w := ws[0];
    if |ws| == 1 {
      TakeWordOf(w, "");
      assert w + "" == w;
      assert w[|w|..] == "";
    } else {
      var rest := Join(" ", ws[1..]);
      var s := w + (" " + rest);
      assert Join(" ", ws) == s;
      TakeWordOf(w, " " + rest);
      assert s[|w|..] == " " + rest;
      assert (" " + rest)[1..] == rest;
      WordsOfJoin(ws[1..]);
    }
  }

  /** A term typed as lower-case words separated by single spaces has its
      hyphen, underscore and plus slugs among the variants. */
  lemma SlugsOfWords(ws: seq<string>, quote: string -> string, quotePlus: string -> string)
    requires |ws| > 0 && forall k :: 0 <= k < |ws| ==> IsWord(ws[k])
    requires forall k :: 0 <= k < |ws| ==> NoUpper(ws[k])
    ensures var vs := SlugVariants(Join(" ", ws), quote, quotePlus);
            Join("-", ws) in vs && Join("_", ws) in vs && Join("+", ws) in vs
  {
    var t := Join(" ", ws);
    JoinedWordsStripped(ws);
    JoinedWordsLower(ws);
    WordsOfJoin(ws);
    JoinedSlugs(t, ws, quote, quotePlus);
  }

  lemma JoinedWordsStripped(ws: seq<string>)
    requires |ws| > 0 && forall k :: 0 <= k < |ws| ==> IsWord(ws[k])
    ensures Strip(Join(" ", ws)) == Join(" ", ws)
  {
    JoinFirst(" ", ws);
    JoinLast(" ", ws);
    StripNoop(Join(" ", ws));
  }

  lemma JoinedWordsLower(ws: seq<string>)
    requires forall k :: 0 <= k < |ws| ==> NoUpper(ws[k])
    ensures LowerStr(Join(" ", ws)) == Join(" ", ws)
  {
    JoinKeeps(" ", ws);
  }

  lemma JoinedSlugs(t: string, ws: seq<string>, quote: string -> string, quotePlus: string -> string)
    requires |ws| > 0 && Words(LowerStr(Strip(t))) == ws
    ensures var vs := SlugVariants(t, quote, quotePlus);
            Join("-", ws) in vs && Join("_", ws) in vs && Join("+", ws) in vs
  {
  }

  predicate NoUpper(s: string) {
    forall i :: 0 <= i < |s| ==> !IsUpper(s[i])
  }

  /** Joining text without capitals gives text without capitals. */
  lemma {:induction false} JoinKeeps(sep: string, parts: seq<string>)
    requires NoUpper(sep)
    requires forall k :: 0 <= k < |parts| ==> NoUpper(parts[k])
    ensures NoUpper(Join(sep, parts))
    decreases |parts|
  {
    if |parts| > 1 {
      JoinKeeps(sep, parts[1..]);
      var rest := Join(sep, parts[1..]);
      var j := parts[0] + sep + rest;
      assert NoUpper(parts[0]);
      forall i | 0 <= i < |j|
        ensures !IsUpper(j[i])
      {
        if i < |parts[0]| {
          assert j[i] == parts[0][i];
        } else if i < |parts[0]| + |sep| {
          assert j[i] == sep[i - |parts[0]|];
        } else {
          assert j[i] == rest[i - |parts[0]| - |sep|];
        }
      }
    }
  }

  predicate NonEmpty(s: string) { |s| > 0 }

  /** `[s for s in path.split("/") if s != ""]`. */
  function Segments(path: string): (r: seq<string>)
    ensures forall k :: 0 <= k < |r| ==> |r[k]| > 0 && forall i :: 0 <= i < |r[k]| ==> r[k][i] != '/'
  {
    var pieces := SplitOn(path, '/');
    var r := Seqs.Filter(pieces, NonEmpty);
    assert forall k :: 0 <= k < |r| ==> r[k] in pieces;
    r
  }

  function InVariants(variants: set<string>): string -> bool {
    s => s in variants
  }

  /** The segment the loop picks: the first one that is a variant, else the last. */
  function ChosenSegment(segs: seq<string>, variants: set<string>): (c: nat)
    requires |segs| > 0
    ensures c < |segs|
  {
    match Seqs.FirstIndex(segs, InVariants(variants))
    case Some(i) => i
    case None => |segs| - 1
  }

  /** The template made from a path's segments. */
  function TemplateFor(segs: seq<string>, variants: set<string>): (r: string)
    ensures |r| > 0 && r[0] == '/'
  {
    if |segs| == 0 then "/{query}"
    else "/" + Join("/", segs[ChosenSegment(segs, variants) := "{query}"])
  }

  /** The path branch of `_derive_template_from_example`. */
  function DerivePathTemplate(path: string, variants: set<string>): (r: string)
    ensures |r| > 0 && r[0] == '/'
  {
    TemplateFor(Segments(path), variants)
  }

  /** The segment chosen is the first that is a form of the term, or the
      last when none is. */
  lemma ChosenSegmentIs(segs: seq<string>, variants: set<string>)
    requires |segs| > 0
    ensures var c := ChosenSegment(segs, variants);
            && (forall j :: 0 <= j < c ==> segs[j] !in variants)
            && (segs[c] in variants || (c == |segs| - 1 && forall j :: 0 <= j < |segs| ==> segs[j] !in variants))
  {
  }

  /** Slash-free segments joined behind a `/` split back into themselves. */
  lemma SegmentsReadBack(parts: seq<string>)
    requires |parts| > 0
    requires forall k, i :: 0 <= k < |parts| && 0 <= i < |parts[k]| ==> parts[k][i] != '/'
    ensures SplitOn(("/" + Join("/", parts))[1..], '/') == parts
  {
    assert ("/" + Join("/", parts))[1..] == Join("/", parts);
    SplitOnJoinAll(parts, '/');
  }

  lemma TemplateForSegments(segs: seq<string>, variants: set<string>)
    requires |segs| > 0
    requires forall k, i :: 0 <= k < |segs| && 0 <= i < |segs[k]| ==> segs[k][i] != '/'
    ensures SplitOn(TemplateFor(segs, variants)[1..], '/') == segs[ChosenSegment(segs, variants) := "{query}"]
  {
    var c := ChosenSegment(segs, variants);
    var parts := segs[c := "{query}"];
    assert forall k :: 0 <= k < |parts| && k != c ==> parts[k] == segs[k];
    SegmentsReadBack(parts);
  }

  /** The derived template has the path's segments, in order, with exactly one
      replaced by `{query}`: the first that is a form of the term, or the last
      when none is. A path without segments gives `/{query}`. */
  lemma DerivedTemplateSegments(path: string, variants: set<string>)
    ensures var segs := Segments(path); var r := DerivePathTemplate(path, variants);
            |segs| == 0 ==> r == "/{query}"
    ensures var segs := Segments(path); var r := DerivePathTemplate(path, variants);
            |segs| > 0 ==> var c := ChosenSegment(segs, variants);
              && SplitOn(r[1..], '/') == segs[c := "{query}"]
              && (forall j :: 0 <= j < c ==> segs[j] !in variants)
              && (segs[c] in variants || (c == |segs| - 1 && forall j :: 0 <= j < |segs| ==> segs[j] !in variants))
  {
    var segs := Segments(path);
    if |segs| > 0 {
      TemplateForSegments(segs, variants);
      ChosenSegmentIs(segs, variants);
    }
  }

  // ---------------------------------------------------------------------
  // `default_output_path`
  // ---------------------------------------------------------------------

  function Underscored(c: char): char { if c == ' ' then '_' else c }

  /** `site_name.lower().replace(" ", "_") + ".yaml"` inside the configs
      directory `dir`, whose location on disk is left as a parameter. */
  function DefaultOutputPath(dir: seq<string>, siteName: string): (r: seq<string>)
    ensures |r| == |dir| + 1 && r[..|dir|] == dir
    ensures EndsWith(r[|dir|], ".yaml") && |r[|dir|]| == |siteName| + 5
    ensures forall i :: 0 <= i < |siteName| ==> r[|dir|][i] != ' ' && !IsUpper(r[|dir|][i])
  {
    dir + [Seqs.Map(LowerStr(siteName), Underscored) + ".yaml"]
  }

  function Spaced(c: char): char { if c == '_' then ' ' else c }

  /** For a site name without underscores the file name gives the lower-cased
      name back. */
  lemma OutputNameReadsBack(dir: seq<string>, siteName: string)
    requires forall i :: 0 <= i < |siteName| ==> siteName[i] != '_'
    ensures var name := DefaultOutputPath(dir, siteName)[|dir|];
            Seqs.Map(name[..|name| - 5], Spaced) == LowerStr(siteName)
  {
    var name := DefaultOutputPath(dir, siteName)[|dir|];
    assert name[..|name| - 5] == Seqs.Map(LowerStr(siteName), Underscored);
  }

  // ---------------------------------------------------------------------
  // `_dump_websites_block_from_json`
  // ---------------------------------------------------------------------

  /** `str.splitlines()` on text whose only line break is `\n` (what
      `json.dumps` produces): no trailing empty line. */
  function SplitLines(s: string): (r: seq<string>)
    ensures forall k, i :: 0 <= k < |r| && 0 <= i < |r[k]| ==> r[k][i] != '\n'
    ensures s == "" <==> r == []
  {
    if s == "" then []
    else
      var parts := SplitOn(s, '\n');
      if parts[|parts| - 1] == "" then
        JoinSplitOn(s, '\n');
        assert |parts| > 1;
        parts[..|parts| - 1]
      else parts
  }

  /** Lines joined with `\n`, the last not empty, split back into those lines. */
  lemma SplitLinesOfJoin(ls: seq<string>)
    requires |ls| > 0 && |ls[|ls| - 1]| > 0
    requires forall k, i :: 0 <= k < |ls| && 0 <= i < |ls[k]| ==> ls[k][i] != '\n'
    ensures SplitLines(Join("\n", ls)) == ls
  {
    SplitOnJoinAll(ls, '\n');
    JoinLast("\n", ls);
  }

  const WebsitesPrefix := "websites = "

  /** `_dump_websites_block_from_json`: the JSON text as the value of the
      `websites` key, with an empty object for empty text. */
  function DumpWebsitesBlock(dumped: string): (r: string)
    ensures dumped == "" ==> r == "websites = {}\n"
    ensures StartsWith(r, WebsitesPrefix) && EndsWith(r, "\n")
  {
    var lines := SplitLines(dumped);
    if |lines| == 0 then "websites = {}\n"
    else
      var r := WebsitesPrefix + lines[0] + "\n" + Join("\n", lines[1..]) + "\n";
      assert r[..|WebsitesPrefix|] == WebsitesPrefix;
      r
  }

  /** Multi-line JSON text is written back verbatim after `websites = `. */
  lemma DumpMultiLine(ls: seq<string>)
    requires |ls| >= 2 && |ls[|ls| - 1]| > 0
    requires forall k, i :: 0 <= k < |ls| && 0 <= i < |ls[k]| ==> ls[k][i] != '\n'
    ensures DumpWebsitesBlock(Join("\n", ls)) == WebsitesPrefix + Join("\n", ls) + "\n"
  {
    var d := Join("\n", ls);
    var rest := Join("\n", ls[1..]);
    SplitLinesOfJoin(ls);
    assert d == ls[0] + "\n" + rest;
    Seqs.AppendRegroup(WebsitesPrefix, ls[0], "\n", rest, "\n");
  }

  /** Single-line JSON text (`{}` from an empty object) gets an empty line
      after it. */
  lemma DumpOneLine(line: string)
    requires |line| > 0 && forall i :: 0 <= i < |line| ==> line[i] != '\n'
    ensures DumpWebsitesBlock(line) == WebsitesPrefix + line + "\n\n"
  {
    SplitLinesOfJoin([line]);
  }

  // ---------------------------------------------------------------------
  // `upsert` inside `_update_config_ini_with_site`
  // ---------------------------------------------------------------------

  /** An element of the `movies` or `tv` list: a dict with an optional
      string `name` and `search_url` and other keys, or anything else. */
  datatype SiteEntry = Site(name: Option<string>, searchUrl: Option<string>, others: map<string, string>) | NotADict

  function Named(name: string): SiteEntry -> bool {
    (e: SiteEntry) => e.Site? && e.name == Some(name)
  }

  /** `upsert`: the first dict with this name gets the URL, otherwise a new
      entry is appended. */
  function Upsert(items: seq<SiteEntry>, name: string, url: string): (r: seq<SiteEntry>)
    ensures Seqs.FirstIndex(items, Named(name)).None? ==> r == items + [Site(Some(name), Some(url), map[])]
    ensures Seqs.FirstIndex(items, Named(name)).Some? ==>
      var i := Seqs.FirstIndex(items, Named(name)).value;
      |r| == |items| && r[i] == items[i].(searchUrl := Some(url))
      && forall j :: 0 <= j < |items| && j != i ==> r[j] == items[j]
  {
    match Seqs.FirstIndex(items, Named(name))
    case None => items + [Site(Some(name), Some(url), map[])]
    case Some(i) => items[i := items[i].(searchUrl := Some(url))]
  }

  /** The search URL the first entry with this name holds. */
  function UrlOf(items: seq<SiteEntry>, name: string): (r: Option<string>)
  {
    match Seqs.FirstIndex(items, Named(name))
    case None => None
    case Some(i) => items[i].searchUrl
  }

  lemma FirstIndexSameTruth<T>(xs: seq<T>, ys: seq<T>, P: T -> bool)
    requires |xs| == |ys|
    requires forall i :: 0 <= i < |xs| ==> (P(xs[i]) <==> P(ys[i]))
    ensures Seqs.FirstIndex(xs, P) == Seqs.FirstIndex(ys, P)
  {
    var a := Seqs.FirstIndex(xs, P);
    var b := Seqs.FirstIndex(ys, P);
    if a.Some? && b.Some? {
      assert !(a.value < b.value) && !(b.value < a.value);
    }
  }

  /** After an upsert the site has the URL. */
  lemma UpsertThenUrl(items: seq<SiteEntry>, name: string, url: string)
    ensures UrlOf(Upsert(items, name, url), name) == Some(url)
  {
    var r := Upsert(items, name, url);
    match Seqs.FirstIndex(items, Named(name))
    case None =>
      Seqs.FirstIndexIs(r, Named(name), |items|);
    case Some(i) =>
      Seqs.FirstIndexIs(r, Named(name), i);
  }

  /** An upsert leaves every other site's URL as it was. */
  lemma UpsertOtherSite(items: seq<SiteEntry>, name: string, url: string, other: string)
    requires other != name
    ensures UrlOf(Upsert(items, name, url), other) == UrlOf(items, other)
  {
    var r := Upsert(items, name, url);
    match Seqs.FirstIndex(items, Named(name))
    case None => {
      match Seqs.FirstIndex(items, Named(other))
      case None =>
        assert Seqs.FirstIndex(r, Named(other)).None?;
      case Some(k) =>
        Seqs.FirstIndexIs(r, Named(other), k);
    }
    case Some(i) =>
      FirstIndexSameTruth(items, r, Named(other));
  }

  /** Upserting the same URL twice is the same as once. */
  lemma UpsertIdempotent(items: seq<SiteEntry>, name: string, url: string)
    ensures Upsert(Upsert(items, name, url), name, url) == Upsert(items, name, url)
  {
    var r := Upsert(items, name, url);
    match Seqs.FirstIndex(items, Named(name))
    case None =>
      Seqs.FirstIndexIs(r, Named(name), |items|);
      assert r[|items|].(searchUrl := Some(url)) == r[|items|];
    case Some(i) =>
      Seqs.FirstIndexIs(r, Named(name), i);
      assert r[i := r[i].(searchUrl := Some(url))] == r;
  }

  /** The scope step: `media_scopes or ["movies", "tv"]` (an empty list is
      read as none given), then an upsert into each list in scope. */
  function UpdateWebsites(movies: seq<SiteEntry>, tv: seq<SiteEntry>, scopes: seq<string>,
                          site: string, movieUrl: string, tvUrl: string): (r: (seq<SiteEntry>, seq<SiteEntry>))
    ensures var inScope := |scopes| == 0 || "movies" in scopes;
            (inScope ==> UrlOf(r.0, site) == Some(movieUrl)) && (!inScope ==> r.0 == movies)
    ensures var inScope := |scopes| == 0 || "tv" in scopes;
            (inScope ==> UrlOf(r.1, site) == Some(tvUrl)) && (!inScope ==> r.1 == tv)
    ensures forall other :: other != site ==> UrlOf(r.0, other) == UrlOf(movies, other) && UrlOf(r.1, other) == UrlOf(tv, other)
  {
    var effective := if |scopes| == 0 then ["movies", "tv"] else scopes;
    var m := if "movies" in effective then Upsert(movies, site, movieUrl) else movies;
    var t := if "tv" in effective then Upsert(tv, site, tvUrl) else tv;
    UpsertThenUrl(movies, site, movieUrl);
    UpsertThenUrl(tv, site, tvUrl);
    assert forall other :: other != site ==> UrlOf(m, other) == UrlOf(movies, other) by {
      forall other | other != site
        ensures UrlOf(m, other) == UrlOf(movies, other)
      {
        UpsertOtherSite(movies, site, movieUrl, other);
      }
    }
    assert forall other :: other != site ==> UrlOf(t, other) == UrlOf(tv, other) by {
      forall other | other != site
        ensures UrlOf(t, other) == UrlOf(tv, other)
      {
        UpsertOtherSite(tv, site, tvUrl, other);
      }
    }
    (m, t)
  }
}
