/**
 * The splice the corpus normalisers share: a block of header lines is put
 * right after the line break that ends the line holding the first
 * occurrence of an anchor; without the anchor, or without a line break
 * after it, the content stays as it is.
 */
module Splice {
  import opened Wrappers
  import opened Text

  lemma NewlineAt(s: string, j: int)
    ensures OccursAt(s, "\n", j) <==> 0 <= j < |s| && s[j] == '\n'
  {
    if 0 <= j < |s| && s[j] == '\n' {
      assert s[j..j + 1] == "\n";
    }
  }

  /**
   * `content.find(anchor)` and then `content.find('\n', that)`: the position
   * just after that line break.
   */
  function InsertPoint(content: string, anchor: string): (r: Option<nat>)
    ensures r.None? <==> (FindFrom(content, anchor, 0).None? ||
      forall j :: FindFrom(content, anchor, 0).value <= j < |content| ==> content[j] != '\n')
    ensures r.Some? ==> 0 < r.value <= |content| && content[r.value - 1] == '\n'
    ensures r.Some? ==> (FindFrom(content, anchor, 0).Some? && FindFrom(content, anchor, 0).value < r.value &&
      forall j :: FindFrom(content, anchor, 0).value <= j < r.value - 1 ==> content[j] != '\n')
  {
    match FindFrom(content, anchor, 0)
    case None => None
    case Some(i) =>
      match FindFrom(content, "\n", i)
      case None =>
        assert forall j :: i <= j < |content| ==> content[j] != '\n' by {
          forall j | i <= j < |content| ensures content[j] != '\n' { NewlineAt(content, j); }
        }
        None
      case Some(e) =>
        NewlineAt(content, e);
        assert forall j :: i <= j < e ==> content[j] != '\n' by {
          forall j | i <= j < e ensures content[j] != '\n' { NewlineAt(content, j); }
        }
        Some(e + 1)
  }

  /**
   * The spliced content: before the insertion point the text is the old
   * one, then comes the block, then the rest of the old text; with no
   * insertion point nothing changes.
   */
  function Insert(content: string, anchor: string, block: string): (r: string)
    ensures InsertPoint(content, anchor).None? ==> r == content
    ensures InsertPoint(content, anchor).Some? ==>
      var p := InsertPoint(content, anchor).value;
      |r| == |content| + |block| && r[..p] == content[..p] && r[p..p + |block|] == block && r[p + |block|..] == content[p..]
  {
    match InsertPoint(content, anchor)
    case None => content
    case Some(p) =>
      var r := content[..p] + block + content[p..];
      assert r[..p] == content[..p];
      assert r[p..p + |block|] == block;
      assert r[p + |block|..] == content[p..];
      r
  }

  /** Deleting the inserted block gives back the input. */
  lemma RemoveBlock(content: string, anchor: string, block: string)
    requires InsertPoint(content, anchor).Some?
    ensures var p := InsertPoint(content, anchor).value;
      Insert(content, anchor, block)[..p] + Insert(content, anchor, block)[p + |block|..] == content
  {
    var p := InsertPoint(content, anchor).value;
    assert content == content[..p] + content[p..];
  }

  /** A non-empty block changes the content exactly when there is an insertion point. */
  lemma ChangesIffPoint(content: string, anchor: string, block: string)
    requires block != []
    ensures Insert(content, anchor, block) != content <==> InsertPoint(content, anchor).Some?
  {
    if InsertPoint(content, anchor).Some? {
      assert |Insert(content, anchor, block)| == |content| + |block|;
    }
  }
}
