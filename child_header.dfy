/**
 * The header block the Post and VanKleeck normalisers (src/modify_post_files.py,
 * src/modify_vankleeck_files.py) splice in after the line of the first
 * `@Languages:`: a `@ChildName:` line and then a `@Child_Age:` line.
 */
module ChildHeader {
  import opened Wrappers
  import opened Text
  import opened Scan
  import Splice
  import ChatReader

  const Anchor := "@Languages:"

  function Block(name: string, age: string): string {
    "@ChildName: " + name + "\n" + "@Child_Age: " + age + "\n"
  }

  /**
   * `modify_cha_file` on the text of the file: with an insertion point the
   * block goes in there and the rest is kept on both sides; otherwise the
   * text stays as it is (the file is not rewritten).
   */
  function Modify(content: string, name: string, age: string): (r: string)
    ensures Splice.InsertPoint(content, Anchor).None? ==> r == content
    ensures Splice.InsertPoint(content, Anchor).Some? ==>
      var p := Splice.InsertPoint(content, Anchor).value;
      var b := Block(name, age);
      |r| == |content| + |b| && r[..p] == content[..p] && r[p..p + |b|] == b && r[p + |b|..] == content[p..]
  {
    Splice.Insert(content, Anchor, Block(name, age))
  }

  /** Deleting the block gives back the input. */
  lemma ModifyUndone(content: string, name: string, age: string)
    requires Splice.InsertPoint(content, Anchor).Some?
    ensures var p := Splice.InsertPoint(content, Anchor).value;
      var r := Modify(content, name, age);
      r[..p] + r[p + |Block(name, age)|..] == content
  {
    Splice.RemoveBlock(content, Anchor, Block(name, age));
  }

  /** The text changes exactly when there is an insertion point. */
  lemma ModifyChanges(content: string, name: string, age: string)
    ensures Modify(content, name, age) != content <==> Splice.InsertPoint(content, Anchor).Some?
  {
    Splice.ChangesIffPoint(content, Anchor, Block(name, age));
  }

  /** The text up to the insertion point is a line ending in a break. */
  lemma BeforePoint(content: string, p: nat)
    requires 0 < p <= |content| && content[p - 1] == '\n'
    ensures content == content[..p - 1] + "\n" + content[p..]
    ensures content[..p] == content[..p - 1] + "\n"
  {
    assert content[..p] == content[..p - 1] + [content[p - 1]];
    assert content == content[..p] + content[p..];
  }

  /** In a text without `@ChildName:`, the reader finds the inserted name. */
  lemma NameReadBack(content: string, name: string, age: string)
    requires Splice.InsertPoint(content, Anchor).Some?
    requires !Contains(content, "@ChildName:")
    requires name != [] && '\n' !in name && !IsSpace(name[0]) && !IsSpace(name[|name| - 1])
    ensures ChatReader.ChildName(Modify(content, name, age)) == Some(Some(name))
  {
    var p := Splice.InsertPoint(content, Anchor).value;
    var x := content[..p - 1];
    var y := content[p..];
    BeforePoint(content, p);
    ContainsIn([], x, "\n" + y, "@ChildName:");
    assert [] + x + ("\n" + y) == content;
    var rest := "\n" + "@Child_Age: " + age + "\n" + y;
    SplicedAsLines(content, p, x, y, name, age);
    FieldAfterBreak(x, "@ChildName:", name, rest);
  }

  lemma SplicedAsLines(content: string, p: nat, x: string, y: string, name: string, age: string)
    requires Splice.InsertPoint(content, Anchor) == Some(p)
    requires x == content[..p - 1] && y == content[p..] && content[..p] == x + "\n"
    ensures Modify(content, name, age) == x + "\n" + ("@ChildName:" + " " + name + ("\n" + "@Child_Age: " + age + "\n" + y))
    ensures Modify(content, name, age) == x + "\n" + (("@ChildName: " + name) + "\n" + (("@Child_Age: " + age) + "\n" + y))
  {
    var r := Modify(content, name, age);
    var b := Block(name, age);
    assert r == r[..p] + r[p..p + |b|] + r[p + |b|..];
    assert r == (x + "\n") + b + y;
    BlockAsLines(x, y, name, age);
  }

  lemma BlockAsLines(x: string, y: string, name: string, age: string)
    ensures (x + "\n") + Block(name, age) + y == x + "\n" + ("@ChildName:" + " " + name + ("\n" + "@Child_Age: " + age + "\n" + y))
    ensures (x + "\n") + Block(name, age) + y == x + "\n" + (("@ChildName: " + name) + "\n" + (("@Child_Age: " + age) + "\n" + y))
  {
  }

  /**
   * The age goes under `@Child_Age:`, a key the transcript reader does not
   * look for: text that held no `@ChildAge:` still has no age for it.
   */
  lemma AgeNotReadBack(content: string, name: string, age: string)
    requires !Contains(content, "@ChildAge:") && !Contains(name, "@ChildAge:") && !Contains(age, "@ChildAge:")
    ensures ChatReader.ChildAge(Modify(content, name, age)) == None
  {
    var key := "@ChildAge:";
    if Splice.InsertPoint(content, Anchor).Some? {
      var p := Splice.InsertPoint(content, Anchor).value;
      var x := content[..p - 1];
      var y := content[p..];
      BeforePoint(content, p);
      ContainsIn([], x, "\n" + y, key);
      assert [] + x + ("\n" + y) == content;
      ContainsIn(x + "\n", y, [], key);
      assert x + "\n" + y + [] == content;
      SplicedAsLines(content, p, x, y, name, age);
      NoAgeKeyInLines(x, y, name, age);
    }
  }

  /** The text around the inserted block and the block itself hold no `@ChildAge:`. */
  lemma NoAgeKeyInLines(x: string, y: string, name: string, age: string)
    requires !Contains(x, "@ChildAge:") && !Contains(y, "@ChildAge:")
    requires !Contains(name, "@ChildAge:") && !Contains(age, "@ChildAge:")
    ensures !Contains(x + "\n" + (("@ChildName: " + name) + "\n" + (("@Child_Age: " + age) + "\n" + y)), "@ChildAge:")
  {
    var key := "@ChildAge:";
    LineWithoutKey("@ChildName: ", name);
    LineWithoutKey("@Child_Age: ", age);
    NoKeyAcross("@Child_Age: " + age, y, key);
    NoKeyAcross("@ChildName: " + name, ("@Child_Age: " + age) + "\n" + y, key);
    NoKeyAcross(x, ("@ChildName: " + name) + "\n" + (("@Child_Age: " + age) + "\n" + y), key);
  }

  /** Neither header prefix brings in `@ChildAge:`. */
  lemma LineWithoutKey(prefix: string, v: string)
    requires prefix == "@ChildName: " || prefix == "@Child_Age: "
    requires !Contains(v, "@ChildAge:")
    ensures !Contains(prefix + v, "@ChildAge:")
  {
    var s := prefix + v;
    assert s[6] == prefix[6] != 'A';
    PrefixNoKey(prefix, v, "@ChildAge:");
  }
}
