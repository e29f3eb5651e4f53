/** The hashtag line of the demo description generator: the category tag
    followed by one tag per non-blank comma-separated keyword, at most
    fifteen tags in all. */
module Hashtags {
  import opened Text

  /** How many tags the line shows. */
  const MaxTags: nat := 15

  /** `f"#{s.replace(' ', '')}"` */
  function Tag(s: string): (r: string)
    ensures |r| >= 1 && r[0] == '#' && ' ' !in r
  {
    "#" + RemoveAll(s, ' ')
  }

  /** `[s.strip() for s in pieces if s.strip()]`: the stripped pieces that
      are not blank, in order. */
  function Kept(pieces: seq<string>): (r: seq<string>)
    ensures |r| <= |pieces|
  {
    if |pieces| == 0 then []
    else
      var last := Strip(pieces[|pieces| - 1]);
      Kept(pieces[..|pieces| - 1]) + (if last == [] then [] else [last])
  }

  /** One piece is kept, stripped, exactly when it is not blank. */
  lemma KeptOne(p: string)
    ensures Kept([p]) == if Strip(p) == [] then [] else [Strip(p)]
  {
    assert [p][..0] == [];
  }

  /** Keeping works piece by piece: with `KeptOne` this fixes which stripped
      pieces are kept, and in what order. */
  lemma {:induction false} KeptAppend(a: seq<string>, b: seq<string>)
    ensures Kept(a + b) == Kept(a) + Kept(b)
    decreases |b|
  {
    if |b| == 0 {
      assert a + b == a;
    } else {
      var n := |b|;
      assert (a + b)[..|a + b| - 1] == a + b[..n - 1];
      assert (a + b)[|a + b| - 1] == b[n - 1];
      KeptAppend(a, b[..n - 1]);
    }
  }

  /** No kept keyword is empty or starts with whitespace. */
  lemma {:induction false} KeptNonBlank(pieces: seq<string>)
    ensures forall i :: 0 <= i < |Kept(pieces)| ==> Kept(pieces)[i] != [] && !IsSpace(Kept(pieces)[i][0])
    decreases |pieces|
  {
    if |pieces| > 0 {
      KeptNonBlank(pieces[..|pieces| - 1]);
      StripTrimmed(pieces[|pieces| - 1]);
    }
  }

  /** One tag per word, in order. */
  function Tags(words: seq<string>): (r: seq<string>)
    ensures |r| == |words|
    ensures forall i :: 0 <= i < |words| ==> r[i] == Tag(words[i])
  {
    if |words| == 0 then [] else Tags(words[..|words| - 1]) + [Tag(words[|words| - 1])]
  }

  /** `tags[:n]` */
  function Take(tags: seq<string>, n: nat): (r: seq<string>)
    ensures |r| == if |tags| <= n then |tags| else n
    ensures forall i :: 0 <= i < |r| ==> r[i] == tags[i]
  {
    if |tags| <= n then tags else tags[..n]
  }

  /** The tags line 269 shows for a category and a keyword field. */
  function ShownTags(category: string, keywords: string): seq<string> {
    Take([Tag(category)] + Tags(Kept(Split(keywords, ','))), MaxTags)
  }

  /** One step of the comprehension of line 266: strip the piece, keep it if
      it is not blank. */
  method KeepIfNonBlank(kept: seq<string>, piece: string) returns (r: seq<string>)
    ensures r == kept + Kept([piece])
  {
    var k := Strip(piece);
    KeptOne(piece);
    if k != "" {
      r := kept + [k];
    } else {
      r := kept;
    }
  }

  /** The list comprehension of line 266: strip each piece, keep the non-blank ones. */
  method KeepNonBlank(pieces: seq<string>) returns (kept: seq<string>)
    ensures kept == Kept(pieces)
  {
    kept := [];
    var i := 0;
    while i < |pieces|
      invariant 0 <= i <= |pieces|
      invariant kept == Kept(pieces[..i])
    {
      kept := KeepIfNonBlank(kept, pieces[i]);
      KeptAppend(pieces[..i], [pieces[i]]);
      assert pieces[..i] + [pieces[i]] == pieces[..i + 1];
      i := i + 1;
    }
    assert pieces[..i] == pieces;
  }

  /** The loop of lines 266-267: append one tag per kept keyword. */
  method AppendTags(tags: seq<string>, kept: seq<string>) returns (r: seq<string>)
    ensures r == tags + Tags(kept)
  {
    r := tags;
    var j := 0;
    while j < |kept|
      invariant 0 <= j <= |kept|
      invariant r == tags + Tags(kept[..j])
    {
      assert kept[..j + 1][..j] == kept[..j];
      r := r + ["#" + RemoveAll(kept[j], ' ')];
      j := j + 1;
    }
    assert kept[..j] == kept;
  }

  /** Lines 264-267: one tag per non-blank comma-separated keyword; none
      when the keyword field is empty. */
  method KeywordTags(keywords: string) returns (tags: seq<string>)
    ensures tags == Tags(Kept(Split(keywords, ',')))
  {
    tags := [];
    if keywords != "" {
      var kept := KeepNonBlank(Split(keywords, ','));
      tags := AppendTags(tags, kept);
    } else {
      assert Split(keywords, ',') == [""];
      assert Kept([""]) == [];
    }
  }

  /** Lines 264-269: collect the keyword tags, put the category tag in front
      and join the first fifteen with spaces. The product-name fallback of
      line 269 never applies, since the list always holds the category tag. */
  method SuggestHashtags(productName: string, category: string, keywords: string)
    returns (shown: seq<string>, line: string)
    ensures shown == ShownTags(category, keywords)
    ensures line == Join(shown, ' ')
  {
    var tags := KeywordTags(keywords);
    tags := ["#" + RemoveAll(category, ' ')] + tags;
    shown := if |tags| <= MaxTags then tags else tags[..MaxTags];
    line := if |tags| > 0 then Join(shown, ' ') else "#" + RemoveAll(productName, ' ');
  }

  /** A tag made from a non-blank stripped keyword is `#`, then at least one
      character, and no space. */
  lemma KeywordTagShape(w: string)
    requires w != [] && !IsSpace(w[0])
    ensures |Tag(w)| >= 2 && Tag(w)[0] == '#' && ' ' !in Tag(w)
  {
    assert w[0] != ' ';
  }

  /** Every tag made from kept keywords is `#`, then at least one character, and no space. */
  lemma KeywordTagsShape(kept: seq<string>)
    requires forall i :: 0 <= i < |kept| ==> kept[i] != [] && !IsSpace(kept[i][0])
    ensures forall i :: 0 <= i < |kept| ==>
      |Tags(kept)[i]| >= 2 && Tags(kept)[i][0] == '#' && ' ' !in Tags(kept)[i]
  {
    forall i | 0 <= i < |kept|
      ensures |Tags(kept)[i]| >= 2 && Tags(kept)[i][0] == '#' && ' ' !in Tags(kept)[i]
    {
      KeywordTagShape(kept[i]);
    }
  }

  /** The first fifteen of the category tag and the kept keywords' tags: the
      category tag first, then keyword tags of the shape above. */
  lemma TakeTagsShape(category: string, kept: seq<string>)
    requires forall i :: 0 <= i < |kept| ==> kept[i] != [] && !IsSpace(kept[i][0])
    ensures var shown := Take([Tag(category)] + Tags(kept), MaxTags);
      && 1 <= |shown| <= MaxTags
      && shown[0] == "#" + RemoveAll(category, ' ')
      && forall i :: 1 <= i < |shown| ==> |shown[i]| >= 2 && shown[i][0] == '#' && ' ' !in shown[i]
  {
    var tags := Tags(kept);
    KeywordTagsShape(kept);
    ConsIndex(Tag(category), tags);
  }

  /** The elements after the head of `[x] + xs` are those of `xs`. */
  lemma ConsIndex<T>(x: T, xs: seq<T>)
    ensures forall i :: 1 <= i < |[x] + xs| ==> ([x] + xs)[i] == xs[i - 1]
  {
  }

  /** The shown tags: the category tag (spaces removed) comes first, there are
      at most fifteen, and every keyword tag is `#` followed by at least one
      character and holds no space. */
  lemma ShownTagsShape(category: string, keywords: string)
    ensures var shown := ShownTags(category, keywords);
      && 1 <= |shown| <= MaxTags
      && shown[0] == "#" + RemoveAll(category, ' ')
      && forall i :: 1 <= i < |shown| ==> |shown[i]| >= 2 && shown[i][0] == '#' && ' ' !in shown[i]
  {
    KeptNonBlank(Split(keywords, ','));
    TakeTagsShape(category, Kept(Split(keywords, ',')));
  }

  /** The hashtag line, split at its spaces, gives back exactly the tags shown. */
  lemma HashtagLineSplits(category: string, keywords: string)
    ensures var shown := ShownTags(category, keywords);
      Split(Join(shown, ' '), ' ') == shown
  {
    var shown := ShownTags(category, keywords);
    ShownTagsShape(category, keywords);
    SplitJoin(shown, ' ');
  }

  /** Blank keywords (empty, or only commas and whitespace) give the category tag alone. */
  lemma {:induction false} BlankKeywordsGiveCategoryOnly(category: string, pieces: seq<string>)
    requires forall i :: 0 <= i < |pieces| ==> Strip(pieces[i]) == []
    ensures Kept(pieces) == []
    ensures Take([Tag(category)] + Tags(Kept(pieces)), MaxTags) == [Tag(category)]
    decreases |pieces|
  {
    if |pieces| > 0 {
      BlankKeywordsGiveCategoryOnly(category, pieces[..|pieces| - 1]);
    }
  }
}
