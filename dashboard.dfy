/**
  The string logic of the app's dashboard route: the currency-format
  normaliser (decode entities, detect the currency-changer marker, strip
  tags, re-wrap), the pair of normalised shop formats, the shop name taken
  from the session's shop domain, and the theme-editor deep link.

  The browser's entity decoder is not modelled; every operation that uses
  it takes it as the parameter `decode`, and no property below depends on
  what it does.
 */
module Dashboard {
  import opened Strings

  /** The attribute signature that identifies an already customised format. */
  const Marker: string := "class=\"currency-changer\""
  /** The element that wraps a stripped format. */
  const WrapOpen: string := "<span " + Marker + ">"
  const WrapClose: string := "</span>"

  /** A `<` at index `i` and a `>` at a later index `j`. */
  predicate TagAt(s: string, i: int, j: int) {
    0 <= i < j < |s| && s[i] == '<' && s[j] == '>'
  }

  /** `<` and a later `>`: a span the tag pattern `<[^>]*>` would match. */
  predicate HasTag(s: string) {
    exists i, j :: 0 <= i < j < |s| && TagAt(s, i, j)
  }

  /**
    `str.replace(/<[^>]*>/g, '')`. The pattern matches a `<` and everything up
    to the first `>` after it; a `<` with no later `>` starts no match and is
    kept, and scanning resumes after each match.
   */
  function StripHtml(s: string): (r: string)
    ensures IsSubsequence(r, s)
    ensures !HasTag(r)
    decreases |s|
  {
    if s == [] then
      []
    else if s[0] == '<' && IndexOf(s[1..], ">").Some? then
      // drop the tag: the `<`, its body and the first `>` after it
      IndexOfChar(s[1..], '>');
      var next := IndexOf(s[1..], ">").value + 2;
      var rest := StripHtml(s[next..]);
      SubsequenceOfSuffix(rest, s, next);
      rest
    else
      var rest := StripHtml(s[1..]);
      var r := [s[0]] + rest;
      assert r[1..] == rest;
      IndexOfChar(s[1..], '>');
      SubsequenceBounds(rest, s[1..], '>');
      assert forall i, j :: 0 <= i < j < |r| ==> !TagAt(r, i, j) by {
        forall i, j | 0 <= i < j < |r| ensures !TagAt(r, i, j) {
          assert r[j] == rest[j - 1];
          if 0 < i {
            assert r[i] == rest[i - 1] && !TagAt(rest, i - 1, j - 1);
          }
        }
      }
      r
  }

  /** A string is left unchanged by stripping exactly when it holds no `<` followed later by `>`. */
  lemma {:induction false} StripHtmlUnchangedIffNoTag(s: string)
    ensures StripHtml(s) == s <==> !HasTag(s)
    decreases |s|
  {
    if !HasTag(s) && s != [] {
      forall i, j | 0 <= i < j < |s[1..]| ensures !TagAt(s[1..], i, j) {
        assert !TagAt(s, i + 1, j + 1);
      }
      StripHtmlUnchangedIffNoTag(s[1..]);
      if s[0] == '<' {
        IndexOfChar(s[1..], '>');
        forall j | 0 <= j < |s[1..]| ensures s[1..][j] != '>' {
          assert !TagAt(s, 0, j + 1);
        }
      }
      assert s == [s[0]] + s[1..];
    }
  }

  /** Text without any `<` passes through stripping unchanged. */
  lemma StripHtmlWithoutOpenIsIdentity(s: string)
    requires '<' !in s
    ensures StripHtml(s) == s
  {
    StripHtmlUnchangedIffNoTag(s);
  }

  /** Stripping a second time changes nothing. */
  lemma StripHtmlIdempotent(s: string)
    ensures StripHtml(StripHtml(s)) == StripHtml(s)
  {
    StripHtmlUnchangedIffNoTag(StripHtml(s));
  }

  /** Stripping never lengthens a string. */
  lemma StripHtmlNotLonger(s: string)
    ensures |StripHtml(s)| <= |s|
  {
    SubsequenceBounds(StripHtml(s), s, '<');
  }

  /** Text before the first `<` is kept as it is. */
  lemma {:induction false} StripHtmlKeepsPlainPrefix(p: string, q: string)
    requires '<' !in p
    ensures StripHtml(p + q) == p + StripHtml(q)
    decreases |p|
  {
    if p != [] {
      assert (p + q)[1..] == p[1..] + q;
      StripHtmlKeepsPlainPrefix(p[1..], q);
      assert p == [p[0]] + p[1..];
    } else {
      assert p + q == q;
    }
  }

  /** A complete tag, a `<` through the first `>` after it, is removed whatever it holds. */
  lemma StripHtmlDropsTag(body: string, q: string)
    requires '>' !in body
    ensures StripHtml("<" + body + ">" + q) == StripHtml(q)
  {
    var s := "<" + body + ">" + q;
    assert s[1..] == body + ">" + q;
    assert s[1..][..|body|] == body;
    IndexOfCharIs(s[1..], '>', |body|);
    assert s[|body| + 2..] == q;
  }

  /** A leading `<` whose first later `>` sits at index `k + 1` drops everything up to it. */
  lemma StripHtmlAtTag(s: string, k: nat)
    requires k + 1 < |s| && s[0] == '<' && s[k + 1] == '>' && '>' !in s[1..][..k]
    ensures StripHtml(s) == StripHtml(s[k + 2..])
  {
    IndexOfCharIs(s[1..], '>', k);
    assert IndexOf(s[1..], ">") == Some(k);
  }

  /** A first character that opens no complete tag is kept. */
  lemma StripHtmlKeepsFirst(s: string)
    requires s != [] && !(s[0] == '<' && '>' in s[1..])
    ensures StripHtml(s) == [s[0]] + StripHtml(s[1..])
  {
    IndexOfChar(s[1..], '>');
  }

  /** Text after the last `>` is kept as it is, including any `<` in it. */
  lemma {:induction false} StripHtmlKeepsUnclosedTail(p: string, q: string)
    requires '>' !in q
    ensures StripHtml(p + q) == StripHtml(p) + q
    decreases |p|
  {
    if p == [] {
      assert p + q == q;
      StripHtmlUnchangedIffNoTag(q);
    } else if p[0] == '<' && '>' in p[1..] {
      IndexOfChar(p[1..], '>');
      var k := IndexOf(p[1..], ">").value;
      StripHtmlAtTagBeforeTail(p, q, k);
      StripHtmlKeepsUnclosedTail(p[k + 2..], q);
    } else {
      StripHtmlKeepsFirstBeforeTail(p, q);
      StripHtmlKeepsUnclosedTail(p[1..], q);
      ConcatAssoc([p[0]], StripHtml(p[1..]), q);
    }
  }

  /** A first character that opens no complete tag is kept the same way when a tail without `>` follows. */
  lemma StripHtmlKeepsFirstBeforeTail(p: string, q: string)
    requires p != [] && !(p[0] == '<' && '>' in p[1..]) && '>' !in q
    ensures StripHtml(p) == [p[0]] + StripHtml(p[1..])
    ensures StripHtml(p + q) == [p[0]] + StripHtml(p[1..] + q)
  {
    var s := p + q;
    assert s[1..] == p[1..] + q;
    assert '>' in s[1..] ==> '>' in p[1..];
    StripHtmlKeepsFirst(p);
    StripHtmlKeepsFirst(s);
  }

  /** A complete leading tag is dropped the same way whatever follows it. */
  lemma StripHtmlAtTagBeforeTail(p: string, q: string, k: nat)
    requires k + 1 < |p| && p[0] == '<' && p[k + 1] == '>' && '>' !in p[1..][..k]
    ensures StripHtml(p) == StripHtml(p[k + 2..])
    ensures StripHtml(p + q) == StripHtml(p[k + 2..] + q)
  {
    StripHtmlAtTag(p, k);
    var s := p + q;
    assert s[1..][..k] == p[1..][..k];
    StripHtmlAtTag(s, k);
    assert s[k + 2..] == p[k + 2..] + q;
  }

  /** A format with one tag around its text loses both tags and keeps the text and what follows. */
  lemma StripHtmlTaggedText(openBody: string, text: string, closeBody: string, tail: string)
    requires '>' !in openBody && '<' !in text && '>' !in closeBody && '<' !in tail
    ensures StripHtml("<" + openBody + ">" + (text + ("<" + closeBody + ">" + tail))) == text + tail
  {
    StripHtmlDropsTag(closeBody, tail);
    StripHtmlWithoutOpenIsIdentity(tail);
    StripHtmlKeepsPlainPrefix(text, "<" + closeBody + ">" + tail);
    StripHtmlDropsTag(openBody, text + ("<" + closeBody + ">" + tail));
  }

  /** `str.includes('class="currency-changer"')`: the format is already customised. */
  function HasCurrencyChanger(s: string): (r: bool)
    ensures r <==> exists i :: OccursAt(s, Marker, i)
  {
    Contains(s, Marker)
  }

  /** The wrapping element always carries the marker. */
  lemma WrappedHasMarker(inner: string)
    ensures HasCurrencyChanger(WrapOpen + inner + WrapClose)
  {
    var w := WrapOpen + inner + WrapClose;
    assert w[6..6 + |Marker|] == WrapOpen[6..6 + |Marker|];
    assert OccursAt(w, Marker, 6);
  }

  /**
    `processFormat`: decode the entities; pass a decoded format that already
    carries the marker through untouched; otherwise strip its tags and wrap
    what is left in the marker element.
   */
  function ProcessFormat(decode: string -> string, format: string): (r: string)
    ensures HasCurrencyChanger(r)
    ensures HasCurrencyChanger(decode(format)) ==> r == decode(format)
    ensures !HasCurrencyChanger(decode(format)) ==> r == WrapOpen + StripHtml(decode(format)) + WrapClose
    ensures !HasCurrencyChanger(decode(format)) ==>
      && |WrapOpen| + |WrapClose| <= |r|
      && r[..|WrapOpen|] == WrapOpen
      && r[|r| - |WrapClose|..] == WrapClose
      && var inner := r[|WrapOpen|..|r| - |WrapClose|];
         !HasTag(inner) && IsSubsequence(inner, decode(format))
  {
    var decoded := decode(format);
    if HasCurrencyChanger(decoded) then
      decoded
    else
      var stripped := StripHtml(decoded);
      WrappedHasMarker(stripped);
      var r := WrapOpen + stripped + WrapClose;
      assert r[|WrapOpen|..|r| - |WrapClose|] == stripped;
      r
  }

  /** A format without any `"` cannot carry the marker. */
  lemma NoQuoteNoMarker(s: string)
    requires '"' !in s
    ensures !HasCurrencyChanger(s)
  {
    assert Marker[6] == '"';
    NotContainedWithoutChar(s, Marker, '"');
  }

  /** An empty format becomes an empty marker element. */
  lemma ProcessFormatEmpty(decode: string -> string)
    requires decode("") == ""
    ensures ProcessFormat(decode, "") == WrapOpen + WrapClose
  {
    NoQuoteNoMarker("");
    assert StripHtml("") == "";
  }

  /** Plain text such as `${{amount}}` is wrapped as it is. */
  lemma ProcessFormatPlainText(decode: string -> string, text: string)
    requires decode(text) == text && '<' !in text && '"' !in text
    ensures ProcessFormat(decode, text) == WrapOpen + text + WrapClose
  {
    NoQuoteNoMarker(text);
    StripHtmlWithoutOpenIsIdentity(text);
  }

  /**
    A tagged format such as `<b>${{amount}}</b> USD` (open tag body `b`, text
    `${{amount}}`, close tag body `/b`, tail ` USD`) loses its tags and is
    wrapped once.
   */
  lemma ProcessFormatTaggedText(decode: string -> string, openBody: string, text: string, closeBody: string, tail: string)
    requires '>' !in openBody && '<' !in text && '>' !in closeBody && '<' !in tail
    requires '"' !in openBody && '"' !in text && '"' !in closeBody && '"' !in tail
    requires var format := "<" + openBody + ">" + (text + ("<" + closeBody + ">" + tail));
      decode(format) == format
    ensures ProcessFormat(decode, "<" + openBody + ">" + (text + ("<" + closeBody + ">" + tail)))
      == WrapOpen + (text + tail) + WrapClose
  {
    var format := "<" + openBody + ">" + (text + ("<" + closeBody + ">" + tail));
    assert '"' !in format;
    NoQuoteNoMarker(format);
    StripHtmlTaggedText(openBody, text, closeBody, tail);
  }

  /** The shop format `${{amount}}` with the identity decoder becomes `<span class="currency-changer">${{amount}}</span>`. */
  lemma ProcessFormatPlainExample()
    ensures ProcessFormat(s => s, "${{amount}}") == WrapOpen + "${{amount}}" + WrapClose
  {
    ProcessFormatPlainText(s => s, "${{amount}}");
  }

  /** The shop format `<b>${{amount}}</b> USD` with the identity decoder becomes `<span class="currency-changer">${{amount}} USD</span>`. */
  lemma ProcessFormatTaggedExample()
    ensures ProcessFormat(s => s, "<b>${{amount}}</b> USD") == WrapOpen + "${{amount}} USD" + WrapClose
  {
    assert "<" + "b" + ">" + ("${{amount}}" + ("<" + "/b" + ">" + " USD")) == "<b>${{amount}}</b> USD";
    assert "${{amount}}" + " USD" == "${{amount}} USD";
    ProcessFormatTaggedText(s => s, "b", "${{amount}}", "/b", " USD");
  }

  /** A format already wrapped in the marker element, such as `<span class="currency-changer">${{amount}} USD</span>`, is kept. */
  lemma ProcessFormatKeepsWrapped(decode: string -> string, inner: string)
    requires decode(WrapOpen + inner + WrapClose) == WrapOpen + inner + WrapClose
    ensures ProcessFormat(decode, WrapOpen + inner + WrapClose) == WrapOpen + inner + WrapClose
  {
    WrappedHasMarker(inner);
  }

  /**
    Decoding comes before detection: a format whose marker is visible only once
    its entities are decoded, such as
    `&lt;span class=&quot;currency-changer&quot;&gt;${{amount}}&lt;/span&gt;`,
    is recognised and returned decoded, not wrapped again.
   */
  lemma MarkerFoundAfterDecoding(decode: string -> string, format: string, inner: string)
    requires '"' !in format
    requires decode(format) == WrapOpen + inner + WrapClose
    ensures !HasCurrencyChanger(format)
    ensures ProcessFormat(decode, format) == WrapOpen + inner + WrapClose
  {
    NoQuoteNoMarker(format);
    WrappedHasMarker(inner);
  }

  /** A second pass only decodes: whenever decoding leaves the output alone, re-processing is a no-op. */
  lemma ReprocessIsNoOpWhenDecodingIsStable(decode: string -> string, format: string)
    requires decode(ProcessFormat(decode, format)) == ProcessFormat(decode, format)
    ensures ProcessFormat(decode, ProcessFormat(decode, format)) == ProcessFormat(decode, format)
  {
  }

  /**
    Re-processing is not a no-op in general, because the second pass decodes
    again: `&amp;amp;` decodes to `&amp;` on the first pass and to `&` on the second.
   */
  lemma ReprocessCanChangeOutput(decode: string -> string, format: string)
    requires format == "&amp;amp;" && decode(format) == "&amp;"
    requires decode(WrapOpen + "&amp;" + WrapClose) == WrapOpen + "&" + WrapClose
    ensures ProcessFormat(decode, format) == WrapOpen + "&amp;" + WrapClose
    ensures ProcessFormat(decode, ProcessFormat(decode, format)) == WrapOpen + "&" + WrapClose
    ensures ProcessFormat(decode, ProcessFormat(decode, format)) != ProcessFormat(decode, format)
  {
    NoQuoteNoMarker("&amp;");
    StripHtmlWithoutOpenIsIdentity("&amp;");
    WrappedHasMarker("&");
  }

  /** The two format strings the shop API returns. */
  datatype CurrencyFormats = CurrencyFormats(moneyFormat: string, moneyWithCurrencyFormat: string)

  /** The two normalised fragments the dashboard displays and copies. */
  datatype ProcessedFormats = ProcessedFormats(withCurrency: string, withoutCurrency: string)

  /** The pair built from the shop's formats, one field from each format. */
  function ProcessFormats(decode: string -> string, formats: CurrencyFormats): (r: ProcessedFormats)
    ensures r.withCurrency == ProcessFormat(decode, formats.moneyWithCurrencyFormat)
    ensures r.withoutCurrency == ProcessFormat(decode, formats.moneyFormat)
    ensures HasCurrencyChanger(r.withCurrency) && HasCurrencyChanger(r.withoutCurrency)
  {
    ProcessedFormats(
      withCurrency := ProcessFormat(decode, formats.moneyWithCurrencyFormat),
      withoutCurrency := ProcessFormat(decode, formats.moneyFormat))
  }

  /** The domain suffix of a store, removed from and re-appended to the shop name. */
  const ShopDomainSuffix: string := ".myshopify.com"
  /** The theme-editor path and query that activate the app's embed block. */
  const ThemeEditorPath: string :=
    "/admin/" + "themes/current/editor?context=apps&template=index&activateAppId=010de1f3-20a8-4c27-8078-9d5535ccae26/helloCurrency"

  /** `session.shop.replace(".myshopify.com", "")`: the first occurrence of the suffix is removed. */
  function ShopName(sessionShop: string): (r: string)
    ensures !Contains(sessionShop, ShopDomainSuffix) ==> r == sessionShop
    ensures forall i :: FirstOccurrenceAt(sessionShop, ShopDomainSuffix, i) ==>
      r == sessionShop[..i] + sessionShop[i + |ShopDomainSuffix|..]
  {
    RemoveFirst(sessionShop, ShopDomainSuffix)
  }

  /** The suffix overlaps no shifted copy of itself. */
  lemma SuffixHasNoBorder(x: string, j: nat)
    requires j < |x| < j + |ShopDomainSuffix|
    ensures !OccursAt(x + ShopDomainSuffix, ShopDomainSuffix, j)
  {
    var w := (x + ShopDomainSuffix)[j..j + |ShopDomainSuffix|];
    var k := |x| - j;
    assert w[k] == ShopDomainSuffix[0] == '.';
    if k == 10 {
      assert w[11] == ShopDomainSuffix[1] != ShopDomainSuffix[11];
    } else {
      assert ShopDomainSuffix[k] != '.';
    }
  }

  /** The shop name of a store domain `X.myshopify.com` is `X`, when `X` does not itself hold the suffix. */
  lemma ShopNameOfShopDomain(x: string)
    requires !Contains(x, ShopDomainSuffix)
    ensures ShopName(x + ShopDomainSuffix) == x
  {
    var s := x + ShopDomainSuffix;
    assert s[|x|..|x| + |ShopDomainSuffix|] == ShopDomainSuffix;
    forall j | 0 <= j < |x| ensures !OccursAt(s, ShopDomainSuffix, j) {
      if j + |ShopDomainSuffix| <= |x| {
        assert s[j..j + |ShopDomainSuffix|] == x[j..j + |ShopDomainSuffix|];
        assert !OccursAt(x, ShopDomainSuffix, j);
      } else {
        SuffixHasNoBorder(x, j);
      }
    }
    assert FirstOccurrenceAt(s, ShopDomainSuffix, |x|);
    assert s[..|x|] == x;
  }

  /**
    The deep link into the store's theme editor: the shop name sits between the
    scheme and the store domain, and the editor path follows the domain.
   */
  function ThemeEditorUrl(shop: string): (r: string)
    ensures "https://" + shop + ShopDomainSuffix + "/admin/" <= r
    ensures r[..8] == "https://" && r[8..8 + |shop|] == shop
    ensures r[8 + |shop|..] == ShopDomainSuffix + ThemeEditorPath
  {
    var site := "https://" + shop;
    var head := site + ShopDomainSuffix;
    var r := head + ThemeEditorPath;
    assert r == site + (ShopDomainSuffix + ThemeEditorPath);
    DropConcatPrefix(site, ShopDomainSuffix + ThemeEditorPath);
    assert r[..|head|] == head && r[|head|..|head| + 7] == ThemeEditorPath[..7];
    assert r[..|head| + 7] == head + "/admin/";
    r
  }

  /** For a session on store domain `X.myshopify.com`, the deep link goes to that same store's admin. */
  lemma ThemeEditorUrlForSession(sessionShop: string, x: string)
    requires sessionShop == x + ShopDomainSuffix && !Contains(x, ShopDomainSuffix)
    ensures "https://" + sessionShop + "/admin/" <= ThemeEditorUrl(ShopName(sessionShop))
  {
    ShopNameOfShopDomain(x);
    assert "https://" + x + ShopDomainSuffix + "/admin/" == "https://" + sessionShop + "/admin/";
  }
}
