/** The URL content tool of backend/agent/tools/url_tool.py: scheme
    prefixing, HTML tag stripping with `re.sub(r'<[^>]+>', '', ...)`,
    whitespace collapsing with `' '.join(text.split())`, and the 500-character
    preview. The HTTP request is a function parameter returning the page text
    or the text of the exception it raised. */
module UrlTool {
  import opened Wrappers
  import opened Text

  const Http: string := "http://"
  const Https: string := "https://"

  /** `url.startswith(('http://', 'https://'))`; case-sensitive. */
  predicate HasScheme(url: string) {
    Http <= url || Https <= url
  }

  /** The "basic URL validation": a URL without a scheme gets `https://`. */
  function NormalizeUrl(url: string): (r: string)
    ensures HasScheme(r)
    ensures HasScheme(url) ==> r == url
    ensures !HasScheme(url) ==> r == Https + url
  {
    if HasScheme(url) then url else Https + url
  }

  /** Normalising twice is normalising once. */
  lemma NormalizeIdempotent(url: string)
    ensures NormalizeUrl(NormalizeUrl(url)) == NormalizeUrl(url)
  {
  }

  /** The scheme check is case-sensitive: an upper-case scheme is not seen
      and gets a second scheme in front of it. */
  lemma UpperCaseSchemeNotRecognised()
    ensures NormalizeUrl("HTTP://x") == "https://HTTP://x"
  {
    assert !(Http <= "HTTP://x") by { assert "HTTP://x"[0] != Http[0]; }
    assert !(Https <= "HTTP://x") by { assert "HTTP://x"[0] != Https[0]; }
  }

  // ---------------------------------------------------------------------
  // Tag stripping

  /** The length of the match of `<[^>]+>` at the start of `s`, if any: a
      `<`, then everything up to the first `>`, which must not come at once. */
  function TagLength(s: string): (r: Option<nat>)
    ensures r.Some? ==> 3 <= r.value <= |s| && s[0] == '<' && s[r.value - 1] == '>' && '>' !in s[1..r.value - 1]
    ensures r.None? <==> (|s| == 0 || s[0] != '<' || (|s| >= 2 && s[1] == '>') || '>' !in s[1..])
  {
    if |s| == 0 || s[0] != '<' then None
    else
      match FirstIndex(s[1..], '>')
      case None => None
      case Some(j) =>
        if j == 0 then None
        else
          assert s[1..j + 1] == s[1..][..j];
          Some(j + 2)
  }

  /** No position of `s` starts a match of the tag pattern. */
  predicate TagFree(s: string) {
    forall i :: 0 <= i < |s| ==> TagLength(s[i..]).None?
  }

  /** `re.sub(r'<[^>]+>', '', s)`: matches are found left to right and
      scanning resumes after each removed tag. */
  function StripTags(s: string): (r: string)
    ensures |r| <= |s|
    ensures forall c :: c in r ==> c in s
    decreases |s|
  {
    if |s| == 0 then ""
    else
      match TagLength(s)
      case Some(n) => StripTags(s[n..])
      case None => [s[0]] + StripTags(s[1..])
  }

  /** The stripped text holds no tag: removing tags never glues the pieces
      around them into a new one. */
  lemma {:induction false} StripTagsTagFree(s: string)
    ensures TagFree(StripTags(s))
    decreases |s|
  {
    if |s| > 0 {
      match TagLength(s)
      case Some(n) => StripTagsTagFree(s[n..]);
      case None =>
        var t := StripTags(s[1..]);
        var r := [s[0]] + t;
        StripTagsTagFree(s[1..]);
        forall i | 0 <= i < |r| ensures TagLength(r[i..]).None? {
          if i == 0 {
            if s[0] == '<' {
              if |s| >= 2 && s[1] == '>' {
                assert TagLength(s[1..]).None?;
                assert t == [s[1]] + StripTags(s[2..]) by { assert s[1..][1..] == s[2..]; }
                assert r[1] == '>';
              } else {
                assert '>' !in s[1..];
                assert '>' !in t;
                assert r[1..] == t;
              }
            }
          } else {
            assert r[i..] == t[i - 1..];
          }
        }
    }
  }

  /** Text without tags is left as it is. */
  lemma {:induction false} StripTagsOfTagFree(s: string)
    requires TagFree(s)
    ensures StripTags(s) == s
    decreases |s|
  {
    if |s| > 0 {
      assert s[0..] == s;
      assert TagLength(s).None?;
      assert TagFree(s[1..]) by {
        forall i | 0 <= i < |s[1..]| ensures TagLength(s[1..][i..]).None? {
          assert s[1..][i..] == s[i + 1..];
        }
      }
      StripTagsOfTagFree(s[1..]);
    }
  }

  /** Stripping tags twice is stripping them once. */
  lemma StripTagsIdempotent(s: string)
    ensures StripTags(StripTags(s)) == StripTags(s)
  {
    StripTagsTagFree(s);
    StripTagsOfTagFree(StripTags(s));
  }

  /** An empty pair of angle brackets is not a tag and survives. */
  lemma EmptyBracketsSurvive()
    ensures StripTags("<>") == "<>"
  {
    assert TagLength("<>").None?;
    assert "<>"[1..] == ">";
    assert TagLength(">").None?;
    assert StripTags(">") == ">" by { assert ">"[1..] == ""; }
  }

  /** Both tags of a bold pair go and the text between them stays. */
  lemma BoldTagsRemoved(t: string)
    requires '<' !in t
    ensures StripTags("<b>" + t + "</b>") == t
  {
    var s := "<b>" + (t + "</b>");
    assert FirstIndex(s[1..], '>') == Some(1) by { FirstIndexAt(s[1..], '>', 1); }
    assert TagLength(s) == Some(3);
    assert s[3..] == t + "</b>";
    PlainTextKept(t, "</b>");
    CloseTagRemoved();
    assert "<b>" + t + "</b>" == s;
  }

  /** Text without `<` never starts a tag and is kept as it is. */
  lemma {:induction false} PlainTextKept(t: string, u: string)
    requires '<' !in t
    ensures StripTags(t + u) == t + StripTags(u)
    decreases |t|
  {
    if |t| > 0 {
      assert (t + u)[0] == t[0];
      assert (t + u)[1..] == t[1..] + u;
      PlainTextKept(t[1..], u);
    } else {
      assert t + u == u;
    }
  }

  lemma CloseTagRemoved()
    ensures StripTags("</b>") == ""
  {
    var close := "</b>";
    assert FirstIndex(close[1..], '>') == Some(2) by { FirstIndexAt(close[1..], '>', 2); }
    assert TagLength(close) == Some(4);
    assert close[4..] == "";
  }

  // ---------------------------------------------------------------------
  // Whitespace collapsing

  /** Stripped, no whitespace other than a plain space, and no two spaces
      next to each other. */
  predicate Collapsed(s: string) {
    && IsStripped(s)
    && (forall i :: 0 <= i < |s| && IsSpace(s[i]) ==> s[i] == ' ')
    && (forall i :: 0 <= i < |s| - 1 ==> !(s[i] == ' ' && s[i + 1] == ' '))
  }

  /** `' '.join(text.split())` */
  function CollapseSpaces(s: string): (r: string)
    ensures Collapsed(r)
  {
    JoinWordsCollapsed(Words(s));
    Join(" ", Words(s))
  }

  lemma {:induction false} JoinWordsCollapsed(ws: seq<string>)
    requires forall i :: 0 <= i < |ws| ==> ws[i] != [] && NoSpace(ws[i])
    ensures Collapsed(Join(" ", ws))
    ensures ws != [] ==> Join(" ", ws) != [] && !IsSpace(Join(" ", ws)[0])
    decreases |ws|
  {
    if |ws| > 1 {
      var rest := Join(" ", ws[1..]);
      JoinWordsCollapsed(ws[1..]);
      var s := ws[0] + " " + rest;
      assert Join(" ", ws) == s;
      forall i | 0 <= i < |s| ensures IsSpace(s[i]) ==> s[i] == ' ' {
        if i < |ws[0]| {
          assert s[i] == ws[0][i];
        } else if i > |ws[0]| {
          assert s[i] == rest[i - |ws[0]| - 1];
        }
      }
      forall i | 0 <= i < |s| - 1 ensures !(s[i] == ' ' && s[i + 1] == ' ') {
        if i < |ws[0]| {
          assert s[i] == ws[0][i];
        } else if i == |ws[0]| {
          assert s[i + 1] == rest[0];
        } else {
          assert s[i] == rest[i - |ws[0]| - 1] && s[i + 1] == rest[i - |ws[0]|];
        }
      }
      assert s[0] == ws[0][0];
      assert s[|s| - 1] == rest[|rest| - 1];
    }
  }

  /** Collapsing keeps the words, so collapsing twice is collapsing once. */
  lemma CollapseKeepsWords(s: string)
    ensures Words(CollapseSpaces(s)) == Words(s)
    ensures CollapseSpaces(CollapseSpaces(s)) == CollapseSpaces(s)
  {
    WordsOfJoin(Words(s));
  }

  /** Position by position, what tag-freedom says: every `<` is followed
      at once by `>`, or by no `>` at all. */
  predicate AnglesHarmless(s: string) {
    forall i :: 0 <= i < |s| && s[i] == '<' ==> (i + 1 < |s| && s[i + 1] == '>') || '>' !in s[i + 1..]
  }

  lemma TagFreeAngles(s: string)
    ensures TagFree(s) <==> AnglesHarmless(s)
  {
    forall i | 0 <= i < |s|
      ensures TagLength(s[i..]).None? <==> s[i] != '<' || (i + 1 < |s| && s[i + 1] == '>') || '>' !in s[i + 1..]
    {
      assert s[i..][1..] == s[i + 1..];
    }
  }

  /** Collapsing whitespace brings no `>` in and never moves a `>` away from
      the `<` before it, so tag-free text stays tag-free. */
  lemma {:induction false} CollapseKeepsAngles(s: string)
    ensures '>' in CollapseSpaces(s) ==> '>' in s
    ensures AnglesHarmless(s) ==> AnglesHarmless(CollapseSpaces(s))
    decreases |s|
  {
    if |s| > 0 {
      if IsSpace(s[0]) {
        assert s[1..] == s[1..][..];
        CollapseKeepsAngles(s[1..]);
        assert Words(s) == Words(s[1..]);
      } else {
        var n := WordLength(s);
        var w, rest := s[..n], s[n..];
        assert s == w + rest;
        CollapseKeepsAngles(rest);
        assert Words(s) == [w] + Words(rest);
        GlueWordAngles(w, rest);
      }
    }
  }

  lemma GlueWordAngles(w: string, rest: string)
    requires w != [] && NoSpace(w) && (rest == [] || IsSpace(rest[0]))
    requires '>' in CollapseSpaces(rest) ==> '>' in rest
    requires AnglesHarmless(rest) ==> AnglesHarmless(CollapseSpaces(rest))
    ensures var r := Join(" ", [w] + Words(rest));
      && ('>' in r ==> '>' in w + rest)
      && (AnglesHarmless(w + rest) ==> AnglesHarmless(r))
  {
    var c := CollapseSpaces(rest);
    if Words(rest) == [] {
      assert Join(" ", [w] + Words(rest)) == w;
      if AnglesHarmless(w + rest) {
        AnglesOfWord(w, rest);
      }
    } else {
      JoinCons(" ", w, Words(rest));
      assert '>' in w + (" " + c) ==> '>' in w || '>' in c;
      if AnglesHarmless(w + rest) {
        AnglesOfSuffix(w, rest);
        AnglesGlue(w, rest, c);
      }
    }
  }

  lemma AnglesOfSuffix(w: string, rest: string)
    requires AnglesHarmless(w + rest)
    ensures AnglesHarmless(rest)
  {
    var s := w + rest;
    forall i | 0 <= i < |rest| && rest[i] == '<'
      ensures (i + 1 < |rest| && rest[i + 1] == '>') || '>' !in rest[i + 1..]
    {
      assert s[|w| + i] == rest[i];
      assert s[|w| + i + 1..] == rest[i + 1..];
    }
  }

  lemma AnglesOfWord(w: string, rest: string)
    requires rest == [] || IsSpace(rest[0])
    requires AnglesHarmless(w + rest)
    ensures AnglesHarmless(w)
  {
    var s := w + rest;
    forall i | 0 <= i < |w| && w[i] == '<'
      ensures (i + 1 < |w| && w[i + 1] == '>') || '>' !in w[i + 1..]
    {
      assert s[i] == w[i];
      assert s[i + 1..] == w[i + 1..] + rest;
      if i + 1 == |w| && rest != [] { assert s[i + 1] == rest[0]; }
    }
  }

  /** A word, one space, then collapsed text holding no `>` the rest did not. */
  lemma AnglesGlue(w: string, rest: string, c: string)
    requires NoSpace(w) && (rest == [] || IsSpace(rest[0]))
    requires AnglesHarmless(w + rest) && AnglesHarmless(c)
    requires '>' in c ==> '>' in rest
    ensures AnglesHarmless(w + (" " + c))
  {
    var r := w + (" " + c);
    forall i | 0 <= i < |r| && r[i] == '<'
      ensures (i + 1 < |r| && r[i + 1] == '>') || '>' !in r[i + 1..]
    {
      if i < |w| {
        AnglesInWord(w, rest, c, i);
      } else {
        assert i > |w|;
        assert r[i] == c[i - |w| - 1];
        assert r[i + 1..] == c[i - |w|..];
      }
    }
  }

  lemma AnglesInWord(w: string, rest: string, c: string, i: nat)
    requires NoSpace(w) && (rest == [] || IsSpace(rest[0]))
    requires AnglesHarmless(w + rest)
    requires '>' in c ==> '>' in rest
    requires i < |w| && w[i] == '<'
    ensures var r := w + (" " + c);
      (i + 1 < |r| && r[i + 1] == '>') || '>' !in r[i + 1..]
  {
    var s := w + rest;
    var r := w + (" " + c);
    assert s[i] == '<';
    assert s[i + 1..] == w[i + 1..] + rest;
    assert r[i + 1..] == w[i + 1..] + (" " + c);
    if i + 1 == |w| {
      assert rest != [] ==> s[i + 1] == rest[0];
    } else {
      assert s[i + 1] == w[i + 1] == r[i + 1];
    }
  }

  // ---------------------------------------------------------------------
  // The handler

  const PreviewLength: nat := 500
  const ContentPrefix: string := "Content from "
  const ErrorPrefix: string := "URL content error: "
  const Ellipsis: string := "..."

  /** The page text with tags removed and whitespace collapsed. */
  function CleanContent(page: string): (r: string)
    ensures TagFree(r) && Collapsed(r)
    ensures TagFree(StripTags(page))
  {
    StripTagsTagFree(page);
    TagFreeAngles(StripTags(page));
    CollapseKeepsAngles(StripTags(page));
    TagFreeAngles(CollapseSpaces(StripTags(page)));
    CollapseSpaces(StripTags(page))
  }

  /** `clean_content[:500]` */
  function Preview(s: string): (r: string)
    ensures |r| <= PreviewLength && r <= s
    ensures |s| <= PreviewLength ==> r == s
    ensures |s| > PreviewLength ==> |r| == PreviewLength
  {
    if |s| <= PreviewLength then s else s[..PreviewLength]
  }

  /** `_handler(url)`: `fetch` is `requests.get` with `raise_for_status()`
      and `.text`, called with the normalised URL. */
  function FetchUrlContent(url: string, fetch: string -> Result<string, string>): (r: string)
    ensures fetch(NormalizeUrl(url)).Ok? ==>
      var head := ContentPrefix + NormalizeUrl(url) + ": ";
      && head <= r
      && |head| + |Ellipsis| <= |r| <= |head| + PreviewLength + |Ellipsis|
      && r[|r| - |Ellipsis|..] == Ellipsis
      && r[|head|..|r| - |Ellipsis|] == Preview(CleanContent(fetch(NormalizeUrl(url)).value))
    ensures fetch(NormalizeUrl(url)).Err? ==> r == ErrorPrefix + fetch(NormalizeUrl(url)).error
  {
    var u := NormalizeUrl(url);
    match fetch(u)
    case Ok(page) =>
      var head := ContentPrefix + u + ": ";
      var p := Preview(CleanContent(page));
      var r := head + p + Ellipsis;
      assert r[|head|..|r| - |Ellipsis|] == p;
      r
    case Err(e) => ErrorPrefix + e
  }

  /** The ellipsis is added even when nothing was cut off, and short content
      appears in full. */
  lemma ShortContentKeepsEllipsis(url: string, fetch: string -> Result<string, string>)
    requires fetch(NormalizeUrl(url)).Ok?
    requires |CleanContent(fetch(NormalizeUrl(url)).value)| <= PreviewLength
    ensures FetchUrlContent(url, fetch) ==
              ContentPrefix + NormalizeUrl(url) + ": " + CleanContent(fetch(NormalizeUrl(url)).value) + Ellipsis
  {
  }

  /** Page text and failure text can never be confused: the two answers
      start differently. */
  lemma OutcomesDistinguishable(url: string, fetch: string -> Result<string, string>)
    ensures fetch(NormalizeUrl(url)).Ok? <==> ContentPrefix <= FetchUrlContent(url, fetch)
  {
    assert ContentPrefix[0] == 'C' && ErrorPrefix[0] == 'U';
    if fetch(NormalizeUrl(url)).Err? {
      assert FetchUrlContent(url, fetch)[0] == 'U';
    }
  }
}
