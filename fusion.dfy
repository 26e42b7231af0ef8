// Field fusion and text cleanup of final_dataset_transformation.py: the
// description and subjects of a book taken from the first source whose
// text survives cleaning.

module FieldFusion {
  import opened Common

  /** Texts that mean "no text", compared lower-cased. */
  const BAD_TEXT: set<string> := {
    "nan", "none", "null", "n/a", "na", "description not available",
    "not available", "no description", "no description available"
  }

  // ---------------------------------------------------------------------
  // strip_html
  // ---------------------------------------------------------------------

  /** The length of the whitespace run at the start of t. */
  function LeadingSpaces(t: string): (n: nat)
    ensures n <= |t|
    ensures forall i :: 0 <= i < n ==> IsSpace(t[i])
    ensures n < |t| ==> !IsSpace(t[n])
    decreases |t|
  {
    if t != [] && IsSpace(t[0]) then 1 + LeadingSpaces(t[1..]) else 0
  }

  /** The length of the match of (?i)<br\s*\/?> at the start of t, 0 for
      none. */
  function BreakTagLength(t: string): (n: nat)
    ensures n <= |t|
    ensures n > 0 ==> n >= 4 && t[0] == '<' && t[n - 1] == '>'
  {
    if |t| < 3 || t[0] != '<' || (t[1] != 'b' && t[1] != 'B') || (t[2] != 'r' && t[2] != 'R') then 0
    else
      var k := 3 + LeadingSpaces(t[3..]);
      var k' := if k < |t| && t[k] == '/' then k + 1 else k;
      if k' < |t| && t[k'] == '>' then k' + 1 else 0
  }

  /** The length of the match of <[^>]+> at the start of t, 0 for none:
      '<', at least one character, up to the first '>'. */
  function TagLength(t: string): (n: nat)
    ensures n <= |t|
    ensures n > 0 ==> n >= 3 && t[0] == '<' && t[n - 1] == '>'
    ensures n > 0 ==> forall i :: 1 <= i < n - 1 ==> t[i] != '>'
    ensures n == 0 && |t| >= 2 && t[0] == '<' && t[1] != '>' ==> '>' !in t[1..]
  {
    if |t| < 2 || t[0] != '<' || t[1] == '>' then 0
    else
      var j := IndexOfChar(t[1..], '>');
      if j < |t| - 1 then j + 2 else 0
  }

  /** u is a whole match of (?i)<br\s*\/?>: "<br" in any case, whitespace,
      an optional '/', then '>'. */
  predicate IsBreakTag(u: string) {
    && |u| >= 4 && u[0] == '<' && (u[1] == 'b' || u[1] == 'B') && (u[2] == 'r' || u[2] == 'R')
    && u[|u| - 1] == '>'
    && forall i :: 3 <= i < |u| - 1 ==> IsSpace(u[i]) || (i == |u| - 2 && u[i] == '/')
  }

  /** A break tag matches at the start of t exactly when some prefix of t
      is one, and then the match is that prefix. */
  lemma BreakTagLengthSpec(t: string, m: nat)
    ensures BreakTagLength(t) > 0 ==> IsBreakTag(t[..BreakTagLength(t)])
    ensures m <= |t| && IsBreakTag(t[..m]) ==> BreakTagLength(t) == m
  {
    if |t| >= 3 {
      var n := LeadingSpaces(t[3..]);
      var k := 3 + n;
      assert forall i :: 3 <= i < k ==> IsSpace(t[i]) by {
        forall i | 3 <= i < k ensures IsSpace(t[i]) { assert t[3..][i - 3] == t[i]; }
      }
      assert k < |t| ==> !IsSpace(t[k]) by {
        if k < |t| { assert t[3..][n] == t[k]; }
      }
      if m <= |t| && IsBreakTag(t[..m]) {
        var u := t[..m];
        assert forall i :: 0 <= i < m ==> u[i] == t[i];
        if u[m - 2] == '/' && m - 2 >= 3 {
          assert !IsSpace(t[m - 2]);
        } else {
          assert !IsSpace(t[m - 1]);
        }
      }
    }
  }

  /** re.sub(r"(?i)<br\s*\/?>", " ", s). */
  function SubBreaks(s: string): (r: string)
    ensures forall c :: c in r ==> c in s || c == ' '
    ensures '<' !in s ==> r == s
    decreases |s|
  {
    if s == [] then []
    else
      var n := BreakTagLength(s);
      if n > 0 then " " + SubBreaks(s[n..]) else [s[0]] + SubBreaks(s[1..])
  }

  /** re.sub(r"<[^>]+>", " ", s). */
  function SubTags(s: string): (r: string)
    ensures forall c :: c in r ==> c in s || c == ' '
    ensures '<' !in s ==> r == s
    decreases |s|
  {
    if s == [] then []
    else
      var n := TagLength(s);
      if n > 0 then " " + SubTags(s[n..]) else [s[0]] + SubTags(s[1..])
  }

  /** u is a whole match of <[^>]+>: '<', at least one character other
      than '>', then '>'. */
  predicate IsTag(u: string) {
    && |u| >= 3 && u[0] == '<' && u[|u| - 1] == '>'
    && forall i :: 1 <= i < |u| - 1 ==> u[i] != '>'
  }

  /** A tag matches at the start of t exactly when some prefix of t is
      one, and then the match is that prefix. */
  lemma TagLengthSpec(t: string, m: nat)
    ensures TagLength(t) > 0 ==> IsTag(t[..TagLength(t)])
    ensures m <= |t| && IsTag(t[..m]) ==> TagLength(t) == m
  {
    if m <= |t| && IsTag(t[..m]) {
      var u := t[..m];
      assert forall i :: 0 <= i < m ==> u[i] == t[i];
      assert t[1..][m - 2] == '>';
    }
  }

  /** A character other than '<' passes the break substitution unchanged. */
  lemma SubBreaksPlainStep(c: char, t: string)
    requires c != '<'
    ensures SubBreaks([c] + t) == [c] + SubBreaks(t)
  {
    var s := [c] + t;
    assert s[0] == c && s[1..] == t;
  }

  /** Text without '<' passes the break substitution unchanged. */
  lemma {:induction false} SubBreaksPlainPrefix(a: string, b: string)
    requires '<' !in a
    ensures SubBreaks(a + b) == a + SubBreaks(b)
    decreases |a|
  {
    if a == [] {
      assert a + b == b;
    } else {
      var c, rest := a[0], a[1..];
      assert '<' !in rest;
      calc {
        SubBreaks(a + b);
        { assert a + b == [c] + (rest + b); }
        SubBreaks([c] + (rest + b));
        { SubBreaksPlainStep(c, rest + b); }
        [c] + SubBreaks(rest + b);
        { SubBreaksPlainPrefix(rest, b); }
        [c] + (rest + SubBreaks(b));
        { assert [c] + rest == a; }
        a + SubBreaks(b);
      }
    }
  }




  /** A character other than '<' passes the tag substitution unchanged. */
  lemma SubTagsPlainStep(c: char, t: string)
    requires c != '<'
    ensures SubTags([c] + t) == [c] + SubTags(t)
  {
    var s := [c] + t;
    assert s[0] == c && s[1..] == t;
  }

  /** Text without '<' passes the tag substitution unchanged. */
  lemma {:induction false} SubTagsPlainPrefix(a: string, b: string)
    requires '<' !in a
    ensures SubTags(a + b) == a + SubTags(b)
    decreases |a|
  {
    if a == [] {
      assert a + b == b;
    } else {
      var c, rest := a[0], a[1..];
      assert '<' !in rest;
      calc {
        SubTags(a + b);
        { assert a + b == [c] + (rest + b); }
        SubTags([c] + (rest + b));
        { SubTagsPlainStep(c, rest + b); }
        [c] + SubTags(rest + b);
        { SubTagsPlainPrefix(rest, b); }
        [c] + (rest + SubTags(b));
        { assert [c] + rest == a; }
        a + SubTags(b);
      }
    }
  }




  /** A break match at a tag covers exactly that tag. */
  lemma BreakMatchAtTag(tag: string, b: string)
    requires IsTag(tag) && BreakTagLength(tag + b) > 0
    ensures BreakTagLength(tag + b) == |tag|
  {
    var tb := tag + b;
    var n := BreakTagLength(tb);
    BreakTagLengthSpec(tb, n);
    var u := tb[..n];
    assert forall i :: 0 <= i < n && i < |tag| ==> u[i] == tag[i];
  }

  /** A break tag becomes one space, whatever follows it. */
  lemma BreaksAtBreak(tag: string, b: string)
    requires IsBreakTag(tag)
    ensures SubBreaks(tag + b) == " " + SubBreaks(b)
  {
    var tb := tag + b;
    assert tb[..|tag|] == tag;
    BreakTagLengthSpec(tb, |tag|);
    assert tb[|tag|..] == b;
  }

  /** Where no break matches at a tag with no '<' after its first
      character, the whole tag is kept. */
  lemma BreaksMissTag(tag: string, b: string)
    requires IsTag(tag) && '<' !in tag[1..] && BreakTagLength(tag + b) == 0
    ensures SubBreaks(tag + b) == tag + SubBreaks(b)
  {
    var tb := tag + b;
    var rest := tag[1..];
    assert tb[1..] == rest + b;
    assert SubBreaks(tb) == [tb[0]] + SubBreaks(rest + b);
    SubBreaksPlainPrefix(rest, b);
    assert [tag[0]] + (rest + SubBreaks(b)) == ([tag[0]] + rest) + SubBreaks(b);
    assert [tag[0]] + rest == tag;
  }

  /** At a tag with no '<' after its first character, the break
      substitution either matches exactly that tag or leaves it alone,
      whatever follows it. */
  lemma BreaksAtTag(tag: string, b: string)
    requires IsTag(tag) && '<' !in tag[1..]
    ensures SubBreaks(tag + b) == " " + SubBreaks(b) || SubBreaks(tag + b) == tag + SubBreaks(b)
  {
    var tb := tag + b;
    if BreakTagLength(tb) > 0 {
      BreakMatchAtTag(tag, b);
      assert tb[|tag|..] == b;
    } else {
      BreaksMissTag(tag, b);
    }
  }

  /** A tag becomes one space, whatever follows it. */
  lemma TagsAtTag(tag: string, b: string)
    requires IsTag(tag)
    ensures SubTags(tag + b) == " " + SubTags(b)
  {
    var tb := tag + b;
    assert tb[..|tag|] == tag;
    TagLengthSpec(tb, |tag|);
    assert tb[|tag|..] == b;
  }

  /** A break tag or another tag between two texts without '<' becomes
      one space: the texts themselves stay. */
  lemma OneTagBecomesSpace(a: string, tag: string, b: string)
    requires '<' !in a && '<' !in b && IsTag(tag) && '<' !in tag[1..]
    ensures SubTags(SubBreaks(a + tag + b)) == a + " " + b
  {
    assert a + tag + b == a + (tag + b);
    SubBreaksPlainPrefix(a, tag + b);
    var x := SubBreaks(tag + b);
    TagAmidPlain(tag, b);
    SubTagsPlainPrefix(a, x);
    assert a + (" " + b) == a + " " + b;
  }

  /** A tag followed by text without '<' becomes one space under the two
      substitutions in a row. */
  lemma TagAmidPlain(tag: string, b: string)
    requires '<' !in b && IsTag(tag) && '<' !in tag[1..]
    ensures SubTags(SubBreaks(tag + b)) == " " + b
  {
    assert SubBreaks(b) == b && SubTags(b) == b;
    BreaksAtTag(tag, b);
    if SubBreaks(tag + b) == " " + b {
      SubTagsPlainPrefix(" ", b);
    } else {
      TagsAtTag(tag, b);
    }
  }

  /** A text cut into pieces: plain text, or one tag. */
  datatype Piece = Plain(text: string) | Markup(tag: string)

  /** The text the pieces make up. */
  function Render(ps: seq<Piece>): (r: string)
    ensures ps == [] ==> r == []
    decreases |ps|
  {
    if ps == [] then []
    else (if ps[0].Plain? then ps[0].text else ps[0].tag) + Render(ps[1..])
  }

  /** The same text with every tag piece replaced by one space. */
  function Spaced(ps: seq<Piece>): (r: string)
    ensures ps == [] ==> r == []
    decreases |ps|
  {
    if ps == [] then []
    else (if ps[0].Plain? then ps[0].text else " ") + Spaced(ps[1..])
  }

  /** Plain pieces hold no '<' and tag pieces are whole tags. */
  predicate TagPieces(ps: seq<Piece>) {
    forall i :: 0 <= i < |ps| ==>
      if ps[i].Plain? then '<' !in ps[i].text else IsTag(ps[i].tag)
  }

  /** Plain pieces hold no '<' and tag pieces are whole break tags. */
  predicate BreakPieces(ps: seq<Piece>) {
    forall i :: 0 <= i < |ps| ==>
      if ps[i].Plain? then '<' !in ps[i].text else IsBreakTag(ps[i].tag)
  }

  /** Plain pieces hold no '<', tag pieces are whole tags with no '<'
      after the first character. */
  predicate HtmlPieces(ps: seq<Piece>) {
    forall i :: 0 <= i < |ps| ==>
      if ps[i].Plain? then '<' !in ps[i].text else IsTag(ps[i].tag) && '<' !in ps[i].tag[1..]
  }

  /** Tag removal turns every tag into one space and keeps the text
      between tags. */
  lemma {:induction false} SubTagsPieces(ps: seq<Piece>)
    requires TagPieces(ps)
    ensures SubTags(Render(ps)) == Spaced(ps)
    decreases |ps|
  {
    if ps != [] {
      var rest := ps[1..];
      assert TagPieces(rest) by {
        forall i | 0 <= i < |rest| ensures if rest[i].Plain? then '<' !in rest[i].text else IsTag(rest[i].tag) {
          assert rest[i] == ps[i + 1];
        }
      }
      SubTagsPieces(rest);
      if ps[0].Plain? {
        SubTagsPlainPrefix(ps[0].text, Render(rest));
      } else {
        TagsAtTag(ps[0].tag, Render(rest));
      }
    }
  }

  /** Break replacement turns every break tag into one space and keeps
      the text between them. */
  lemma {:induction false} SubBreaksPieces(ps: seq<Piece>)
    requires BreakPieces(ps)
    ensures SubBreaks(Render(ps)) == Spaced(ps)
    decreases |ps|
  {
    if ps != [] {
      var rest := ps[1..];
      assert BreakPieces(rest) by {
        forall i | 0 <= i < |rest| ensures if rest[i].Plain? then '<' !in rest[i].text else IsBreakTag(rest[i].tag) {
          assert rest[i] == ps[i + 1];
        }
      }
      SubBreaksPieces(rest);
      if ps[0].Plain? {
        SubBreaksPlainPrefix(ps[0].text, Render(rest));
      } else {
        BreaksAtBreak(ps[0].tag, Render(rest));
      }
    }
  }

  /** The two substitutions in a row turn every tag, break or not, into
      one space and keep the text between tags. */
  lemma {:induction false} TagsBecomeSpaces(ps: seq<Piece>)
    requires HtmlPieces(ps)
    ensures SubTags(SubBreaks(Render(ps))) == Spaced(ps)
    decreases |ps|
  {
    if ps != [] {
      var rest := ps[1..];
      assert HtmlPieces(rest) by {
        forall i | 0 <= i < |rest|
          ensures if rest[i].Plain? then '<' !in rest[i].text else IsTag(rest[i].tag) && '<' !in rest[i].tag[1..]
        {
          assert rest[i] == ps[i + 1];
        }
      }
      TagsBecomeSpaces(rest);
      var x := SubBreaks(Render(rest));
      if ps[0].Plain? {
        var a := ps[0].text;
        SubBreaksPlainPrefix(a, Render(rest));
        SubTagsPlainPrefix(a, x);
      } else {
        var tag := ps[0].tag;
        BreaksAtTag(tag, Render(rest));
        if SubBreaks(tag + Render(rest)) == " " + x {
          SubTagsPlainPrefix(" ", x);
        } else {
          TagsAtTag(tag, x);
        }
      }
    }
  }

  /** No tag starts anywhere in s. */
  predicate NoTag(s: string) {
    forall i :: 0 <= i < |s| ==> TagLength(s[i..]) == 0
  }

  /** Tag removal keeps the first character of a text that starts with
      no tag and not with '<'. */
  lemma SubTagsHead(s: string)
    requires s != [] && s[0] != '<'
    ensures SubTags(s) != [] && SubTags(s)[0] == s[0]
  {
  }

  /** After tag removal no tag is left. */
  lemma {:induction false} SubTagsRemovesTags(s: string)
    ensures NoTag(SubTags(s))
    decreases |s|
  {
    if s != [] {
      var n := TagLength(s);
      var rest := if n > 0 then s[n..] else s[1..];
      SubTagsRemovesTags(rest);
      var r := SubTags(s);
      var tail := SubTags(rest);
      assert r[1..] == tail;
      forall i | 0 <= i < |r|
        ensures TagLength(r[i..]) == 0
      {
        if i > 0 {
          assert r[i..] == tail[i - 1..];
        } else if n == 0 && s[0] == '<' && |s| >= 2 {
          if s[1] == '>' {
            SubTagsHead(s[1..]);
          } else {
            assert '>' !in s[1..];
            if '>' in tail {
              assert false;
            }
            if |r| >= 2 {
              assert r[1..][IndexOfChar(r[1..], '>')..] == r[1..][IndexOfChar(r[1..], '>')..];
              assert IndexOfChar(r[1..], '>') == |r| - 1;
            }
          }
        }
      }
    }
  }

  /** strip_html, with html.unescape as a parameter: line breaks and tags
      become spaces, then whitespace is collapsed and the ends trimmed. */
  function StripHtml(s: string, unescape: string -> string): (r: string)
    ensures Collapsed(r) && Stripped(r)
  {
    var c := Collapse(SubTags(SubBreaks(unescape(s))));
    StripSpec(c);
    Strip(c)
  }

  /** Text without '<' only has its whitespace collapsed. */
  lemma StripHtmlPlain(s: string, unescape: string -> string)
    requires '<' !in unescape(s)
    ensures StripHtml(s, unescape) == Collapse(unescape(s))
  {
    StripSpec(Collapse(unescape(s)));
  }

  /** Text already collapsed, without '<' and left alone by unescaping
      comes through unchanged. */
  lemma StripHtmlKeeps(x: string, unescape: string -> string)
    requires Collapsed(x) && '<' !in x && unescape(x) == x
    ensures StripHtml(x, unescape) == x
  {
    StripHtmlPlain(x, unescape);
    CollapseFixesCollapsed(x);
  }

  /** One tag between two texts without '<' leaves one space between them,
      before the whitespace is collapsed. */
  lemma StripHtmlOneTag(s: string, unescape: string -> string, a: string, tag: string, b: string)
    requires unescape(s) == a + tag + b
    requires '<' !in a && '<' !in b && IsTag(tag) && '<' !in tag[1..]
    ensures StripHtml(s, unescape) == Collapse(a + " " + b)
  {
    OneTagBecomesSpace(a, tag, b);
    StripSpec(Collapse(a + " " + b));
  }

  /** strip_html on text made of plain pieces and tags: every tag becomes
      one space, the plain text stays, then whitespace is collapsed. */
  lemma StripHtmlPieces(s: string, unescape: string -> string, ps: seq<Piece>)
    requires unescape(s) == Render(ps) && HtmlPieces(ps)
    ensures StripHtml(s, unescape) == Collapse(Spaced(ps))
  {
    TagsBecomeSpaces(ps);
    StripSpec(Collapse(Spaced(ps)));
  }

  // ---------------------------------------------------------------------
  // remove_toc_noise
  // ---------------------------------------------------------------------

  const TABLE_OF_CONTENTS: string := "table of contents"
  const CONTENTS: string := "contents:"

  /** remove_toc_noise: the text before the first "table of contents"
      (any case), else before the first "contents:", trimmed; the text
      itself when it has neither. */
  function RemoveTocNoise(s: string): (r: string)
    ensures |r| <= |s|
  {
    if s == [] then s
    else
      var low := Lower(s);
      match Find(low, TABLE_OF_CONTENTS)
      case Some(i) => Strip(s[..i])
      case None =>
        match Find(low, CONTENTS)
        case Some(i) => Strip(s[..i])
        case None => s
  }

  /** Strip(s) is the slice of s between its first and last non-space. */
  lemma StripSlice(s: string) returns (a: nat, b: nat)
    ensures a <= b <= |s| && Strip(s) == s[a..b]
  {
    var l := TrimLeft(s);
    TrimLeftSpec(s);
    TrimRightSpec(l);
    a := |s| - |l|;
    b := a + |TrimRight(l)|;
    assert TrimRight(l) == l[..|TrimRight(l)|];
  }

  lemma LowerSlice(s: string, a: nat, b: nat)
    requires a <= b <= |s|
    ensures Lower(s[a..b]) == Lower(s)[a..b]
  {
  }

  /** The text kept before a key holds no earlier occurrence of it. */
  lemma CutBeforeFirst(s: string, key: string, i: nat)
    requires key != [] && i <= |s| && forall j :: 0 <= j < i ==> !OccursAt(Lower(s), key, j)
    ensures forall j :: !OccursAt(Lower(Strip(s[..i])), key, j)
  {
    var a, b := StripSlice(s[..i]);
    var t := Strip(s[..i]);
    var lt := Lower(t);
    var ls := Lower(s);
    LowerSlice(s[..i], a, b);
    assert Lower(s[..i]) == ls[..i];
    assert lt == ls[a..b];
    assert b <= i;
    forall j | OccursAt(lt, key, j)
      ensures false
    {
      OccursInSlice(ls, a, b, key, j);
    }
  }

  /** An occurrence inside a slice is an occurrence in the whole text. */
  lemma OccursInSlice(s: string, a: nat, b: nat, key: string, j: int)
    requires a <= b <= |s| && OccursAt(s[a..b], key, j)
    ensures OccursAt(s, key, a + j)
  {
    var inner := s[a..b][j..j + |key|];
    var outer := s[a + j..a + j + |key|];
    forall k | 0 <= k < |key|
      ensures inner[k] == outer[k]
    {
    }
    assert inner == outer;
  }

  /** Without either key the text is unchanged; with "table of contents"
      the text is cut before its first occurrence, wherever "contents:"
      stands; with only "contents:" it is cut before the first
      "contents:". Either way the key no longer occurs. */
  lemma RemoveTocNoiseSpec(s: string)
    ensures Find(Lower(s), TABLE_OF_CONTENTS).Some? ==>
      var i := Find(Lower(s), TABLE_OF_CONTENTS).value;
      i <= |s| && RemoveTocNoise(s) == Strip(s[..i])
    ensures Find(Lower(s), TABLE_OF_CONTENTS).None? && Find(Lower(s), CONTENTS).Some? ==>
      var i := Find(Lower(s), CONTENTS).value;
      i <= |s| && RemoveTocNoise(s) == Strip(s[..i])
    ensures !Contains(Lower(s), TABLE_OF_CONTENTS) && !Contains(Lower(s), CONTENTS) ==> RemoveTocNoise(s) == s
    ensures RemoveTocNoise(s) == s || exists i :: 0 <= i <= |s| && RemoveTocNoise(s) == Strip(s[..i])
    ensures Contains(Lower(s), TABLE_OF_CONTENTS) ==>
      forall j :: !OccursAt(Lower(RemoveTocNoise(s)), TABLE_OF_CONTENTS, j)
    ensures !Contains(Lower(s), TABLE_OF_CONTENTS) && Contains(Lower(s), CONTENTS) ==>
      forall j :: !OccursAt(Lower(RemoveTocNoise(s)), CONTENTS, j)
  {
    if s != [] {
      var low := Lower(s);
      match Find(low, TABLE_OF_CONTENTS)
      case Some(i) => CutBeforeFirst(s, TABLE_OF_CONTENTS, i);
      case None =>
        match Find(low, CONTENTS)
        case Some(i) => CutBeforeFirst(s, CONTENTS, i);
        case None =>
    }
  }

  /** A trimmed prefix of a collapsed text is collapsed. */
  lemma CollapsedPrefix(s: string, k: nat)
    requires Collapsed(s) && k <= |s|
    ensures Collapsed(Strip(s[..k])) && Stripped(Strip(s[..k]))
  {
    var p := s[..k];
    StripSpec(p);
    if p != [] {
      assert TrimLeft(p) == p;
      TrimRightSpec(p);
      var t := Strip(p);
      assert t == p[..|t|];
      forall i | 0 <= i < |t|
        ensures SpaceFollowedByWord(t, i)
      {
        assert SpaceFollowedByWord(s, i);
        if i + 1 < |t| {
          assert t[i + 1] == s[i + 1];
        }
      }
    }
  }

  // ---------------------------------------------------------------------
  // clean_text
  // ---------------------------------------------------------------------

  /** The five encoding-garbage patterns: U+00E2 U+20AC followed by U+2122, U+0153,
      U+009D, U+201D and U+201C, the UTF-8 bytes of ’ “ ” — – read as
      cp1252 (U+009D is the byte 0x9D, which cp1252 leaves undefined). */
  const RIGHT_QUOTE: string := "\U{E2}\U{20AC}\U{2122}"
  const LEFT_DOUBLE: string := "\U{E2}\U{20AC}\U{153}"
  const RIGHT_DOUBLE: string := "\U{E2}\U{20AC}\U{9D}"
  const EM_DASH: string := "\U{E2}\U{20AC}\U{201D}"
  const EN_DASH: string := "\U{E2}\U{20AC}\U{201C}"

  /** The chain of five replace calls, in order. Every pattern starts
      with U+00E2, so a text without that character passes unchanged, and
      each repair shortens the text. */
  function FixMojibake(s: string): (r: string)
    ensures '\U{E2}' !in s ==> r == s
    ensures |r| <= |s|
  {
    var s1 := ReplaceAll(s, RIGHT_QUOTE, "'");
    var s2 := ReplaceAll(s1, LEFT_DOUBLE, "\"");
    var s3 := ReplaceAll(s2, RIGHT_DOUBLE, "\"");
    var s4 := ReplaceAll(s3, EM_DASH, "-");
    ReplaceAllBounds(s, RIGHT_QUOTE, "'");
    ReplaceAllBounds(s1, LEFT_DOUBLE, "\"");
    ReplaceAllBounds(s2, RIGHT_DOUBLE, "\"");
    ReplaceAllBounds(s3, EM_DASH, "-");
    ReplaceAllBounds(s4, EN_DASH, "-");
    ReplaceAll(s4, EN_DASH, "-")
  }

  ghost predicate Absent(s: string, pat: string) {
    forall j :: !OccursAt(s, pat, j)
  }

  /** When the replacement is one character outside q, the first m
      characters of the result, if all in q, are those of the input. */
  lemma {:induction false} KeptPrefix(t: string, pat: string, rep: char, q: string, m: nat)
    requires pat != [] && rep !in q
    requires m <= |ReplaceAll(t, pat, [rep])|
    requires forall i :: 0 <= i < m ==> ReplaceAll(t, pat, [rep])[i] in q
    ensures m <= |t| && t[..m] == ReplaceAll(t, pat, [rep])[..m]
    decreases m
  {
    var r := ReplaceAll(t, pat, [rep]);
    if m > 0 && |t| >= |pat| {
      if t[..|pat|] == pat {
        ReplacedHead(t, pat, rep);
      } else {
        var tail := ReplaceAll(t[1..], pat, [rep]);
        assert r == [t[0]] + tail;
        assert forall i :: 0 <= i < m - 1 ==> tail[i] == r[i + 1];
        KeptPrefix(t[1..], pat, rep, q, m - 1);
      }
    }
  }

  /** A replaced match puts a character outside q first, so q cannot
      start the result. */
  lemma FirstReplaced(s: string, pat: string, rep: char, q: string)
    requires pat != [] && q != [] && rep !in q && |s| >= |pat| && s[..|pat|] == pat
    ensures !OccursAt(ReplaceAll(s, pat, [rep]), q, 0)
  {
    ReplacedHead(s, pat, rep);
  }

  /** A match at the front puts the replacement character first. */
  lemma ReplacedHead(s: string, pat: string, rep: char)
    requires pat != [] && |s| >= |pat| && s[..|pat|] == pat
    ensures |ReplaceAll(s, pat, [rep])| > 0 && ReplaceAll(s, pat, [rep])[0] == rep
  {
    assert ReplaceAll(s, pat, [rep]) == [rep] + ReplaceAll(s[|pat|..], pat, [rep]);
  }

  /** When the result starts with q and the first character was kept,
      the input starts with q too. */
  lemma FirstKept(s: string, pat: string, rep: char, q: string)
    requires pat != [] && q != [] && rep !in q && |s| >= |pat| && s[..|pat|] != pat
    requires OccursAt(ReplaceAll(s, pat, [rep]), q, 0)
    ensures OccursAt(s, q, 0)
  {
    var r := ReplaceAll(s, pat, [rep]);
    var tail := ReplaceAll(s[1..], pat, [rep]);
    assert r == [s[0]] + tail;
    forall i | 0 <= i < |q| - 1
      ensures tail[i] in q
    {
      assert tail[i] == r[i + 1] == q[i + 1];
    }
    KeptPrefix(s[1..], pat, rep, q, |q| - 1);
    assert s[..|q|] == [s[0]] + s[1..][..|q| - 1];
  }

  /** Replacing by one character outside q keeps q absent. */
  lemma {:induction false} ReplaceAllKeepsAbsent(s: string, pat: string, rep: char, q: string)
    requires pat != [] && q != [] && rep !in q && Absent(s, q)
    ensures Absent(ReplaceAll(s, pat, [rep]), q)
    decreases |s|
  {
    if |s| >= |pat| {
      var r := ReplaceAll(s, pat, [rep]);
      var rest := if s[..|pat|] == pat then s[|pat|..] else s[1..];
      var d := |s| - |rest|;
      assert rest == s[d..];
      assert forall j :: OccursAt(rest, q, j) ==> OccursAt(s, q, j + d) by {
        forall j | OccursAt(rest, q, j)
          ensures OccursAt(s, q, j + d)
        {
          assert s[j + d..j + d + |q|] == s[d..][j..j + |q|];
        }
      }
      ReplaceAllKeepsAbsent(rest, pat, rep, q);
      var tail := ReplaceAll(rest, pat, [rep]);
      assert r[1..] == tail;
      forall j | OccursAt(r, q, j)
        ensures false
      {
        if j > 0 {
          assert r[j..j + |q|] == tail[j - 1..j - 1 + |q|];
          assert OccursAt(tail, q, j - 1);
        } else if s[..|pat|] == pat {
          FirstReplaced(s, pat, rep, q);
        } else {
          FirstKept(s, pat, rep, q);
        }
      }
    }
  }

  /** Replacing a pattern by one character outside it leaves no
      occurrence of the pattern. */
  lemma {:induction false} ReplaceAllRemoves(s: string, pat: string, rep: char)
    requires pat != [] && rep !in pat
    ensures Absent(ReplaceAll(s, pat, [rep]), pat)
    decreases |s|
  {
    if |s| >= |pat| {
      var r := ReplaceAll(s, pat, [rep]);
      var matched := s[..|pat|] == pat;
      var rest := if matched then s[|pat|..] else s[1..];
      ReplaceAllRemoves(rest, pat, rep);
      var tail := ReplaceAll(rest, pat, [rep]);
      assert r[1..] == tail;
      forall j | OccursAt(r, pat, j)
        ensures false
      {
        if j > 0 {
          assert r[j..j + |pat|] == tail[j - 1..j - 1 + |pat|];
          assert OccursAt(tail, pat, j - 1);
        } else if matched {
          FirstReplaced(s, pat, rep, pat);
        } else {
          FirstKept(s, pat, rep, pat);
        }
      }
    } else {
      assert forall j :: !OccursAt(s, pat, j);
    }
  }

  /** After the chain none of the five patterns is left. */
  lemma FixMojibakeComplete(s: string)
    ensures var r := FixMojibake(s);
      && Absent(r, RIGHT_QUOTE) && Absent(r, LEFT_DOUBLE) && Absent(r, RIGHT_DOUBLE)
      && Absent(r, EM_DASH) && Absent(r, EN_DASH)
  {
    var s1 := ReplaceAll(s, RIGHT_QUOTE, "'");
    var s2 := ReplaceAll(s1, LEFT_DOUBLE, "\"");
    var s3 := ReplaceAll(s2, RIGHT_DOUBLE, "\"");
    var s4 := ReplaceAll(s3, EM_DASH, "-");
    var s5 := ReplaceAll(s4, EN_DASH, "-");
    ReplaceAllRemoves(s, RIGHT_QUOTE, '\'');
    ReplaceAllKeepsAbsent(s1, LEFT_DOUBLE, '"', RIGHT_QUOTE);
    ReplaceAllKeepsAbsent(s2, RIGHT_DOUBLE, '"', RIGHT_QUOTE);
    ReplaceAllKeepsAbsent(s3, EM_DASH, '-', RIGHT_QUOTE);
    ReplaceAllKeepsAbsent(s4, EN_DASH, '-', RIGHT_QUOTE);
    ReplaceAllRemoves(s1, LEFT_DOUBLE, '"');
    ReplaceAllKeepsAbsent(s2, RIGHT_DOUBLE, '"', LEFT_DOUBLE);
    ReplaceAllKeepsAbsent(s3, EM_DASH, '-', LEFT_DOUBLE);
    ReplaceAllKeepsAbsent(s4, EN_DASH, '-', LEFT_DOUBLE);
    ReplaceAllRemoves(s2, RIGHT_DOUBLE, '"');
    ReplaceAllKeepsAbsent(s3, EM_DASH, '-', RIGHT_DOUBLE);
    ReplaceAllKeepsAbsent(s4, EN_DASH, '-', RIGHT_DOUBLE);
    ReplaceAllRemoves(s3, EM_DASH, '-');
    ReplaceAllKeepsAbsent(s4, EN_DASH, '-', EM_DASH);
    ReplaceAllRemoves(s4, EN_DASH, '-');
  }

  /** The five patterns differ in their third character, so the em-dash
      and en-dash repairs still fire after the right-double-quote one. */
  lemma DashRepairsFire()
    ensures FixMojibake(EM_DASH) == "-"
    ensures FixMojibake(EN_DASH) == "-"
  {
    ReplaceAllMiss(EM_DASH, RIGHT_QUOTE, "'");
    ReplaceAllMiss(EM_DASH, LEFT_DOUBLE, "\"");
    ReplaceAllMiss(EM_DASH, RIGHT_DOUBLE, "\"");
    ReplaceAllHit(EM_DASH, "-");
    ReplaceAllMiss("-", EN_DASH, "-");
    ReplaceAllMiss(EN_DASH, RIGHT_QUOTE, "'");
    ReplaceAllMiss(EN_DASH, LEFT_DOUBLE, "\"");
    ReplaceAllMiss(EN_DASH, RIGHT_DOUBLE, "\"");
    ReplaceAllMiss(EN_DASH, EM_DASH, "-");
    ReplaceAllHit(EN_DASH, "-");
  }

  lemma ReplaceAllMiss(s: string, pat: string, rep: string)
    requires |s| <= |pat| && s != pat
    ensures ReplaceAll(s, pat, rep) == s
  {
    if |s| == |pat| {
      assert s[..|pat|] == s;
      assert ReplaceAll(s[1..], pat, rep) == s[1..];
    }
  }

  lemma ReplaceAllHit(pat: string, rep: string)
    requires pat != []
    ensures ReplaceAll(pat, pat, rep) == rep
  {
    assert pat[..|pat|] == pat;
    assert pat[|pat|..] == [];
  }

  /** clean_text, with html.unescape as a parameter. */
  function CleanText(x: Option<string>, unescape: string -> string): (r: Option<string>)
    ensures x.None? || Strip(x.value) == [] ==> r.None?
    ensures r.Some? ==> r.value != [] && Lower(r.value) !in BAD_TEXT
  {
    if x.None? then None
    else
      var s := Strip(x.value);
      if s == [] then None
      else
        var t := RemoveTocNoise(StripHtml(FixMojibake(s), unescape));
        if t == [] || Lower(t) in BAD_TEXT then None else Some(t)
  }

  /** A cleaned text is non-empty, trimmed, has single spaces only, and is
      not a placeholder in any case; an empty cell, a blank text and a
      placeholder give None. */
  lemma CleanTextShape(x: Option<string>, unescape: string -> string)
    ensures var r := CleanText(x, unescape);
      && (x.None? || Strip(x.value) == [] ==> r.None?)
      && (r.Some? ==> r.value != [] && Stripped(r.value) && Collapsed(r.value) && Lower(r.value) !in BAD_TEXT)
    ensures x.Some? && Strip(x.value) != [] ==>
      var t := RemoveTocNoise(StripHtml(FixMojibake(Strip(x.value)), unescape));
      && (CleanText(x, unescape).Some? <==> t != [] && Lower(t) !in BAD_TEXT)
      && (CleanText(x, unescape).Some? ==> CleanText(x, unescape).value == t)
  {
    if x.Some? && Strip(x.value) != [] {
      var h := StripHtml(FixMojibake(Strip(x.value)), unescape);
      RemoveTocNoiseSpec(h);
      if RemoveTocNoise(h) != h {
        var i :| 0 <= i <= |h| && RemoveTocNoise(h) == Strip(h[..i]);
        CollapsedPrefix(h, i);
      }
    }
  }

  /** A text that is already clean (trimmed, single-spaced, no markup, no
      encoding garbage, no table-of-contents key, not a placeholder, and
      left alone by unescaping) comes through clean_text unchanged. */
  lemma CleanTextKeepsCleanText(x: string, unescape: string -> string)
    requires x != [] && Stripped(x) && Collapsed(x) && '<' !in x && '\U{E2}' !in x
    requires !Contains(Lower(x), TABLE_OF_CONTENTS) && !Contains(Lower(x), CONTENTS)
    requires Lower(x) !in BAD_TEXT && unescape(x) == x
    ensures CleanText(Some(x), unescape) == Some(x)
  {
    StripSpec(x);
    StripHtmlKeeps(x, unescape);
    RemoveTocNoiseSpec(x);
  }

  /** Text that is a placeholder in any case is rejected once it comes
      through the cleanup unchanged. */
  lemma CleanTextRejectsPlaceholder(x: string, unescape: string -> string)
    requires RemoveTocNoise(StripHtml(FixMojibake(Strip(x)), unescape)) == Strip(x)
    requires Lower(Strip(x)) in BAD_TEXT
    ensures CleanText(Some(x), unescape).None?
  {
  }

  // ---------------------------------------------------------------------
  // Fusion
  // ---------------------------------------------------------------------

  const DESC_COLS: seq<string> := ["summary", "ol_description", "oa_abstract"]
  const DESC_SOURCES: map<string, string> :=
    map["summary" := "koha_opac", "ol_description" := "openlibrary", "oa_abstract" := "openalex"]
  const SUBJ_COLS: seq<string> := ["subjects", "ol_subjects", "oa_concept_tags"]
  const SUBJ_SOURCES: map<string, string> :=
    map["subjects" := "koha_opac", "ol_subjects" := "openlibrary", "oa_concept_tags" := "openalex"]

  /** source_map.get(c, "unknown"). */
  function Label(sourceMap: map<string, string>, c: string): string {
    if c in sourceMap then sourceMap[c] else "unknown"
  }

  /** pick_first_with_source: the cleaned text of the first column whose
      text survives cleaning, with that column's label. */
  function PickFirstWithSource(row: Cells, cols: seq<string>, sourceMap: map<string, string>,
                               unescape: string -> string): (r: (Option<string>, Option<string>))
    ensures r.0.Some? <==> r.1.Some?
    ensures r.0.Some? ==> r.0.value != [] && Lower(r.0.value) !in BAD_TEXT
    ensures cols == [] ==> r == (None, None)
    decreases |cols|
  {
    if cols == [] then (None, None)
    else
      var v := CleanText(Cell(row, cols[0]), unescape);
      if v.Some? then (v, Some(Label(sourceMap, cols[0])))
      else PickFirstWithSource(row, cols[1..], sourceMap, unescape)
  }

  /** Column i is the first whose text survives cleaning. */
  predicate FirstSurvivor(row: Cells, cols: seq<string>, unescape: string -> string, i: int) {
    && 0 <= i < |cols| && CleanText(Cell(row, cols[i]), unescape).Some?
    && forall j :: 0 <= j < i ==> CleanText(Cell(row, cols[j]), unescape).None?
  }

  /** The value and the label are both present or both absent; when
      present they come from the first column, in list order, whose text
      survives cleaning; when absent no column's text survives. */
  lemma {:induction false} PickFirstWithSourceSpec(row: Cells, cols: seq<string>, sourceMap: map<string, string>,
                                                   unescape: string -> string)
    ensures var (v, src) := PickFirstWithSource(row, cols, sourceMap, unescape);
      && (v.Some? <==> src.Some?)
      && (v.None? <==> forall i :: 0 <= i < |cols| ==> CleanText(Cell(row, cols[i]), unescape).None?)
      && (v.Some? ==> exists i ::
            FirstSurvivor(row, cols, unescape, i) && v == CleanText(Cell(row, cols[i]), unescape)
            && src == Some(Label(sourceMap, cols[i])))
    decreases |cols|
  {
    if cols != [] && CleanText(Cell(row, cols[0]), unescape).None? {
      PickFirstWithSourceSpec(row, cols[1..], sourceMap, unescape);
      var (v, src) := PickFirstWithSource(row, cols, sourceMap, unescape);
      if v.Some? {
        var i :| FirstSurvivor(row, cols[1..], unescape, i)
          && v == CleanText(Cell(row, cols[1..][i]), unescape)
          && src == Some(Label(sourceMap, cols[1..][i]));
        forall j | 0 <= j < i + 1
          ensures CleanText(Cell(row, cols[j]), unescape).None?
        {
          if j > 0 {
            assert cols[j] == cols[1..][j - 1];
          }
        }
        assert cols[i + 1] == cols[1..][i];
        assert FirstSurvivor(row, cols, unescape, i + 1);
      } else {
        forall i | 0 <= i < |cols|
          ensures CleanText(Cell(row, cols[i]), unescape).None?
        {
          if i > 0 {
            assert cols[i] == cols[1..][i - 1];
          }
        }
      }
    }
  }

  /** A row of the transformed dataset: the input row, its new row_id and
      the fused fields with their sources and flags. */
  datatype FusedRow = FusedRow(
    cells: Cells, rowId: nat,
    finalDescription: Option<string>, finalDescriptionSource: Option<string>,
    finalSubjects: Option<string>, finalSubjectsSource: Option<string>,
    hasFinalDescription: int, hasFinalSubjects: int)

  /** One fused row: the flags say whether a value was found. */
  function FuseRow(i: nat, row: Cells, unescape: string -> string): (f: FusedRow)
    ensures f.cells == row && f.rowId == i
    ensures f.hasFinalDescription in {0, 1} && f.hasFinalSubjects in {0, 1}
    ensures f.finalDescription.Some? <==> f.finalDescriptionSource.Some?
    ensures f.finalSubjects.Some? <==> f.finalSubjectsSource.Some?
  {
    var (d, ds) := PickFirstWithSource(row, DESC_COLS, DESC_SOURCES, unescape);
    var (s, ss) := PickFirstWithSource(row, SUBJ_COLS, SUBJ_SOURCES, unescape);
    FusedRow(row, i, d, ds, s, ss, if d.Some? then 1 else 0, if s.Some? then 1 else 0)
  }

  /** main: every row fused, with row_id its position. */
  function Fuse(rows: seq<Cells>, unescape: string -> string): (r: seq<FusedRow>)
    ensures |r| == |rows|
  {
    seq(|rows|, i requires 0 <= i < |rows| => FuseRow(i, rows[i], unescape))
  }

  /** Each flag is 1 exactly when its field is present, and every
      source label is one of the three sources. */
  lemma FuseRowSpec(i: nat, row: Cells, unescape: string -> string)
    ensures var f := FuseRow(i, row, unescape);
      && f.rowId == i && f.cells == row
      && (f.hasFinalDescription == 1 <==> f.finalDescription.Some?)
      && (f.hasFinalDescription == 0 <==> f.finalDescription.None?)
      && (f.hasFinalSubjects == 1 <==> f.finalSubjects.Some?)
      && (f.hasFinalSubjects == 0 <==> f.finalSubjects.None?)
      && (f.finalDescriptionSource.Some? ==> f.finalDescriptionSource.value in {"koha_opac", "openlibrary", "openalex"})
      && (f.finalSubjectsSource.Some? ==> f.finalSubjectsSource.value in {"koha_opac", "openlibrary", "openalex"})
  {
    PickFirstWithSourceSpec(row, DESC_COLS, DESC_SOURCES, unescape);
    PickFirstWithSourceSpec(row, SUBJ_COLS, SUBJ_SOURCES, unescape);
  }

  /** Every input row gives one fused row, in order, with row_id its
      position; the row ids are therefore distinct. */
  lemma FuseSpec(rows: seq<Cells>, unescape: string -> string)
    ensures var r := Fuse(rows, unescape);
      && (forall i :: 0 <= i < |r| ==> r[i] == FuseRow(i, rows[i], unescape) && r[i].rowId == i)
      && (forall i, j :: 0 <= i < j < |r| ==> r[i].rowId != r[j].rowId)
  {
  }

  /** The description comes from the Koha summary, else the Open Library
      description, else the OpenAlex abstract, labelled by its source. */
  lemma DescriptionPrecedence(row: Cells, unescape: string -> string)
    ensures var f := FuseRow(0, row, unescape);
      var koha := CleanText(Cell(row, "summary"), unescape);
      var ol := CleanText(Cell(row, "ol_description"), unescape);
      var oa := CleanText(Cell(row, "oa_abstract"), unescape);
      && (koha.Some? ==> f.finalDescription == koha && f.finalDescriptionSource == Some("koha_opac"))
      && (koha.None? && ol.Some? ==> f.finalDescription == ol && f.finalDescriptionSource == Some("openlibrary"))
      && (koha.None? && ol.None? && oa.Some? ==> f.finalDescription == oa && f.finalDescriptionSource == Some("openalex"))
      && (koha.None? && ol.None? && oa.None? ==> f.finalDescription.None? && f.finalDescriptionSource.None?)
  {
    assert DESC_COLS[1..] == ["ol_description", "oa_abstract"];
    assert DESC_COLS[1..][1..] == ["oa_abstract"];
  }

  /** The subjects come from the Koha subjects, else the Open Library
      subjects, else the OpenAlex concept tags, labelled by their source. */
  lemma SubjectsPrecedence(row: Cells, unescape: string -> string)
    ensures var f := FuseRow(0, row, unescape);
      var koha := CleanText(Cell(row, "subjects"), unescape);
      var ol := CleanText(Cell(row, "ol_subjects"), unescape);
      var oa := CleanText(Cell(row, "oa_concept_tags"), unescape);
      && (koha.Some? ==> f.finalSubjects == koha && f.finalSubjectsSource == Some("koha_opac"))
      && (koha.None? && ol.Some? ==> f.finalSubjects == ol && f.finalSubjectsSource == Some("openlibrary"))
      && (koha.None? && ol.None? && oa.Some? ==> f.finalSubjects == oa && f.finalSubjectsSource == Some("openalex"))
      && (koha.None? && ol.None? && oa.None? ==> f.finalSubjects.None? && f.finalSubjectsSource.None?)
  {
    assert SUBJ_COLS[1..] == ["ol_subjects", "oa_concept_tags"];
    assert SUBJ_COLS[1..][1..] == ["oa_concept_tags"];
  }
}
