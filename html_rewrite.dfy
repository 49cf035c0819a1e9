/**
 * The text rewrite build.js applies to every page before minifying it (build.js:44-51):
 * the Tailwind CDN script tag is removed and the stylesheet link is pointed at the built
 * stylesheet. Both are first-occurrence replacements.
 */
module HtmlRewrite {
  import opened Wrappers
  import opened Text

  /**
   * The Tailwind CDN script tag (the regular expression at build.js:46 matches exactly this
   * text). The literals are written in pieces so that facts about single characters stay
   * cheap to prove.
   */
  const CdnScriptTag := "<script" + " src=\"https://cdn.tailwindcss.com\">" + "</script>"

  /** The development stylesheet link and its replacement. */
  const SourceStylesheet := "<link" + " rel=\"stylesheet\"" + " href=\"/src/css/styles.css\">"
  const DistStylesheet := "<link rel=\"stylesheet\" href=\"/dist/styles.css\">"

  /** The first CDN tag removed, then the first source stylesheet link replaced. */
  function RewriteHtml(html: string): (r: string)
    ensures |html| - |CdnScriptTag| - 3 <= |r| <= |html|
  {
    ReplaceFirst(ReplaceFirst(html, CdnScriptTag, ""), SourceStylesheet, DistStylesheet)
  }

  /** A page with neither the CDN tag nor the source stylesheet link passes through unchanged. */
  lemma RewriteUntouched(html: string)
    requires !Contains(html, CdnScriptTag) && !Contains(html, SourceStylesheet)
    ensures RewriteHtml(html) == html
  {
    ReplaceFirstAbsent(html, CdnScriptTag, "");
    ReplaceFirstAbsent(html, SourceStylesheet, DistStylesheet);
  }

  /**
   * Where the CDN tag occurs, its first occurrence is cut out and nothing else is touched
   * by the first step.
   */
  lemma RewriteCutsFirstTag(html: string) returns (i: nat)
    requires Contains(html, CdnScriptTag)
    ensures OccursAt(html, CdnScriptTag, i) && forall j :: 0 <= j < i ==> !OccursAt(html, CdnScriptTag, j)
    ensures RewriteHtml(html) == ReplaceFirst(html[..i] + html[i + |CdnScriptTag|..], SourceStylesheet, DistStylesheet)
  {
    i := ReplaceFirstPresent(html, CdnScriptTag, "");
    assert html[..i] + "" + html[i + |CdnScriptTag|..] == html[..i] + html[i + |CdnScriptTag|..];
  }

  /** The only '<' of the stylesheet link is its first character. */
  lemma LinkOpensOnce()
    ensures |SourceStylesheet| == 50 && SourceStylesheet[0] == '<' && SourceStylesheet[1] == 'l'
    ensures forall k :: 0 < k < |SourceStylesheet| ==> SourceStylesheet[k] != '<'
  {
  }

  /** The CDN tag has a '<' only where the opening and the closing tag start. */
  lemma TagOpens()
    ensures |CdnScriptTag| == 51
    ensures forall k :: 0 <= k < |CdnScriptTag| && CdnScriptTag[k] == '<' ==> k == 0 || k == 42
    ensures CdnScriptTag[0] == '<' && CdnScriptTag[1] == 's' && CdnScriptTag[43] == '/'
  {
  }

  /** The characters of an occurrence are those of the text that occurs. */
  lemma CharOfOccurrence(s: string, p: string, i: nat, m: nat)
    requires OccursAt(s, p, i) && m < |p|
    ensures s[i + m] == p[m]
  {
    assert s[i..i + |p|][m] == p[m];
  }

  /** Cutting out the first CDN tag does not break an occurrence of the stylesheet link. */
  lemma CutKeepsLink(html: string, i: nat, j: nat)
    requires OccursAt(html, CdnScriptTag, i) && OccursAt(html, SourceStylesheet, j)
    ensures Contains(html[..i] + html[i + |CdnScriptTag|..], SourceStylesheet)
  {
    var t, l := CdnScriptTag, SourceStylesheet;
    var cut := html[..i] + html[i + |t|..];
    TagOpens();
    LinkOpensOnce();
    if j + |l| <= i {
      assert cut[j..j + |l|] == html[j..j + |l|];
      assert OccursAt(cut, l, j);
    } else if i + |t| <= j {
      assert cut[j - |t|..j - |t| + |l|] == html[j..j + |l|];
      assert OccursAt(cut, l, j - |t|);
    } else if j < i {
      CharOfOccurrence(html, t, i, 0);
      CharOfOccurrence(html, l, j, i - j);
      assert false;
    } else {
      CharOfOccurrence(html, l, j, 0);
      CharOfOccurrence(html, l, j, 1);
      CharOfOccurrence(html, t, i, j - i);
      CharOfOccurrence(html, t, i, j - i + 1);
      assert false;
    }
  }

  /** A page that links the source stylesheet links the built one after the rewrite. */
  lemma RewriteLinksToDist(html: string)
    requires Contains(html, SourceStylesheet)
    ensures Contains(RewriteHtml(html), DistStylesheet)
  {
    var cut := ReplaceFirst(html, CdnScriptTag, "");
    if Contains(html, CdnScriptTag) {
      var i := ReplaceFirstPresent(html, CdnScriptTag, "");
      var j :| 0 <= j <= |html| && OccursAt(html, SourceStylesheet, j);
      CutKeepsLink(html, i, j);
      assert cut == html[..i] + html[i + |CdnScriptTag|..];
    } else {
      ReplaceFirstAbsent(html, CdnScriptTag, "");
    }
    var k := ReplaceFirstPresent(cut, SourceStylesheet, DistStylesheet);
  }

  /** Only the first CDN tag is removed: a page that has it twice still has it once. */
  lemma SecondTagSurvives()
    ensures RewriteHtml(CdnScriptTag + CdnScriptTag) == CdnScriptTag
  {
    var t := CdnScriptTag;
    assert OccursAt(t + t, t, 0);
    var i := ReplaceFirstPresent(t + t, t, "");
    assert i == 0;
    assert ReplaceFirst(t + t, t, "") == t;
    assert !Contains(t, SourceStylesheet) by {
      TagOpens();
      LinkOpensOnce();
      forall j | 0 <= j <= |t|
        ensures !OccursAt(t, SourceStylesheet, j)
      {
        if OccursAt(t, SourceStylesheet, j) {
          CharOfOccurrence(t, SourceStylesheet, j, 0);
          CharOfOccurrence(t, SourceStylesheet, j, 1);
          assert false;
        }
      }
    }
    ReplaceFirstAbsent(t, SourceStylesheet, DistStylesheet);
  }
}
