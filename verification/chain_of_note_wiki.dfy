/** `format_docs` of the chain-of-note-wiki template: the retrieved Wikipedia
    pages, each reduced to its `page_content`, become one numbered prompt text. */
module ChainOfNoteWiki {
  import opened Strings

  const Separator: string := "\n\n"

  /** Passage i (counted from 0) as it appears in the prompt. */
  function Block(i: nat, content: string): string
  {
    "Wikipedia " + NatToString(i + 1) + ":\n" + content
  }

  function Blocks(docs: seq<string>): seq<string>
  {
    seq(|docs|, i requires 0 <= i < |docs| => Block(i, docs[i]))
  }

  /** `"\n\n".join(f"Wikipedia {i+1}:\n{doc.page_content}" for i, doc in enumerate(docs))` */
  function FormatDocs(docs: seq<string>): string
  {
    Join(Separator, Blocks(docs))
  }

  /** No documents give the empty text, and only they do. */
  lemma FormatDocsEmpty(docs: seq<string>)
    ensures FormatDocs(docs) == "" <==> docs == []
  {
    if docs != [] {
      JoinStartsWithFirst(Separator, Blocks(docs));
      assert FormatDocs(docs)[..10] == "Wikipedia ";
    }
  }

  /** A single document has no separator: it is passage number 1 and nothing else. */
  lemma FormatDocsSingle(content: string)
    ensures FormatDocs([content]) == "Wikipedia 1:\n" + content
  {
    assert NatToString(1) == "1";
  }

  /** The text for n + 1 documents is the text for the first n, one separator, and
      passage n + 1: passages keep the input order and are numbered consecutively. */
  lemma FormatDocsSnoc(docs: seq<string>, content: string)
    requires docs != []
    ensures FormatDocs(docs + [content]) == FormatDocs(docs) + Separator + Block(|docs|, content)
  {
    assert Blocks(docs + [content]) == Blocks(docs) + [Block(|docs|, content)];
    JoinSnoc(Separator, Blocks(docs), Block(|docs|, content));
  }

  /** n >= 1 documents give exactly n - 1 separators between the n passages. */
  lemma FormatDocsLength(docs: seq<string>)
    requires docs != []
    ensures |FormatDocs(docs)| == TotalLength(Blocks(docs)) + (|docs| - 1) * |Separator|
  {
    JoinLength(Separator, Blocks(docs));
  }

  /** The text opens with passage number 1, the first document. */
  lemma FormatDocsStartsAtOne(docs: seq<string>)
    requires docs != []
    ensures var first := "Wikipedia 1:\n" + docs[0];
      |first| <= |FormatDocs(docs)| && FormatDocs(docs)[..|first|] == first
  {
    JoinStartsWithFirst(Separator, Blocks(docs));
    assert NatToString(1) == "1";
  }

  /** A passage header names one number only: different positions or contents
      give different passages. */
  lemma BlockInjective(i: nat, c: string, j: nat, d: string)
    requires Block(i, c) == Block(j, d)
    ensures i == j && c == d
  {
    var x, y := NatToString(i + 1), NatToString(j + 1);
    var s, t := ":\n" + c, ":\n" + d;
    var u := x + s;
    assert u == y + t by {
      assert Block(i, c) == "Wikipedia " + u;
      assert Block(j, d) == "Wikipedia " + (y + t);
      assert u == Block(i, c)[10..];
    }
    LeadingDigitsOf(x, s);
    LeadingDigitsOf(y, t);
    assert x == u[..|x|] == y;
    NatToStringInjective(i + 1, j + 1);
    assert s == u[|x|..] == t;
    assert c == s[2..] == t[2..] == d;
  }

}
