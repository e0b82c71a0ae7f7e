/**
 * The concrete syntax tree handed over by the parse-tree provider
 * (tree-sitter's Python grammar), reduced to what the extractor reads:
 * a type tag, ordered children, named fields, byte offsets into the UTF-8
 * encoding of the source, and 0-based start/end rows.
 */
module Tree {
  import opened Options

  /**
   * One syntax node. `fields` maps a field name ("name", "parameters",
   * "left", ...) to the position of that field's node among `children`,
   * so every named child is also an ordinary child.
   */
  datatype Node = Node(
    kind: string,
    children: seq<Node>,
    fields: map<string, nat>,
    startByte: nat,
    endByte: nat,
    startRow: nat,
    endRow: nat)

  /** tree-sitter's `child_by_field_name`: the child filling a named field, if any. */
  function FieldChild(n: Node, name: string): (r: Option<Node>)
    ensures r.Some? <==> name in n.fields && n.fields[name] < |n.children|
    ensures r.Some? ==> r.value == n.children[n.fields[name]]
  {
    if name in n.fields && n.fields[name] < |n.children| then Some(n.children[n.fields[name]]) else None
  }

  /** tree-sitter's `child(0)`: the first child, if any. */
  function FirstChild(n: Node): (r: Option<Node>)
    ensures r.Some? <==> |n.children| > 0
    ensures r.Some? ==> r.value == n.children[0]
  {
    if |n.children| > 0 then Some(n.children[0]) else None
  }

  /** The nodes of `n`'s subtree in pre-order: `n` itself, then each child's subtree from left to right. */
  function PreOrder(n: Node): (r: seq<Node>)
    ensures |r| >= 1 && r[0] == n
    decreases n
  {
    [n] + PreOrderAll(n.children)
  }

  /** The pre-orders of a list of sibling subtrees, one after the other. */
  function PreOrderAll(cs: seq<Node>): seq<Node>
    decreases cs
  {
    if |cs| == 0 then [] else PreOrder(cs[0]) + PreOrderAll(cs[1..])
  }

  lemma {:induction false} PreOrderAllConcat(a: seq<Node>, b: seq<Node>)
    ensures PreOrderAll(a + b) == PreOrderAll(a) + PreOrderAll(b)
  {
    if |a| == 0 {
      assert a + b == b;
    } else {
      assert (a + b)[1..] == a[1..] + b;
      PreOrderAllConcat(a[1..], b);
    }
  }

  /** Python's `s[a:b]` for non-negative bounds: bounds past the end are clamped. */
  function PySlice(s: string, a: nat, b: nat): (r: string)
    ensures a <= b <= |s| ==> r == s[a..b]
    ensures a <= |s| <= b ==> r == s[a..]
    ensures |s| <= a || b <= a ==> r == ""
  {
    var hi := if b < |s| then b else |s|;
    if a < hi then s[a..hi] else ""
  }

  /** Number of bytes UTF-8 uses to encode one character. */
  function Utf8Width(ch: char): (w: nat)
    ensures 1 <= w <= 4
    ensures w == 1 <==> ch as int < 0x80
  {
    if ch as int < 0x80 then 1
    else if ch as int < 0x800 then 2
    else if ch as int < 0x10000 then 3
    else 4
  }

  /** Length in bytes of the UTF-8 encoding of `s`. */
  function ByteLength(s: string): nat
  {
    if |s| == 0 then 0 else Utf8Width(s[0]) + ByteLength(s[1..])
  }

  lemma {:induction false} ByteLengthConcat(a: string, b: string)
    ensures ByteLength(a + b) == ByteLength(a) + ByteLength(b)
  {
    if |a| > 0 {
      assert (a + b)[1..] == a[1..] + b;
      ByteLengthConcat(a[1..], b);
    } else {
      assert a + b == b;
    }
  }

  /**
   * How many leading characters of `s` are encoded entirely within the first
   * `b` bytes of its UTF-8 encoding: the character offset of byte offset `b`.
   */
  function CharIndex(s: string, b: nat): (k: nat)
    ensures k <= |s|
    ensures ByteLength(s[..k]) <= b
    ensures k < |s| ==> b < ByteLength(s[..k + 1])
  {
    if |s| == 0 || Utf8Width(s[0]) > b then
      assert |s| > 0 ==> s[..1][1..] == [];
      0
    else
      var k := 1 + CharIndex(s[1..], b - Utf8Width(s[0]));
      assert s[..k][1..] == s[1..][..k - 1];
      assert k < |s| ==> s[..k + 1][1..] == s[1..][..k];
      k
  }

  /** At the byte offset where character `i` starts, `CharIndex` answers `i`. */
  lemma {:induction false} CharIndexAtBoundary(s: string, i: nat)
    requires i <= |s|
    ensures CharIndex(s, ByteLength(s[..i])) == i
  {
    if i > 0 {
      assert s[..i][1..] == s[1..][..i - 1];
      CharIndexAtBoundary(s[1..], i - 1);
    }
  }

  /** On pure-ASCII text every byte offset is a character offset (clamped to the end). */
  lemma {:induction false} CharIndexAscii(s: string, b: nat)
    requires forall k :: 0 <= k < |s| ==> s[k] as int < 0x80
    ensures CharIndex(s, b) == if b < |s| then b else |s|
  {
    if |s| > 0 && b > 0 {
      CharIndexAscii(s[1..], b - 1);
    }
  }

  /**
   * What `_get_node_text` computes as written: the Python `str` sliced with
   * the node's BYTE offsets, as if every character took one byte.
   */
  function SliceAsWritten(n: Node, code: string): string
  {
    PySlice(code, n.startByte, n.endByte)
  }

  /**
   * The node's source text: the characters of `code` whose UTF-8 encoding
   * lies within bytes `startByte..endByte`.
   */
  function NodeText(n: Node, code: string): string
  {
    var a := CharIndex(code, n.startByte);
    var b := CharIndex(code, n.endByte);
    if a <= b then code[a..b] else ""
  }

  /** `_get_node_text`: an absent node reads as the empty string. */
  function Text(n: Option<Node>, code: string): string
  {
    match n
    case None => ""
    case Some(node) => NodeText(node, code)
  }

  /**
   * When the node's offsets fall on character boundaries `i` and `j`, its
   * text is exactly characters `i..j`, which occupy `endByte - startByte`
   * bytes.
   */
  lemma NodeTextSpansBytes(n: Node, code: string, i: nat, j: nat)
    requires i <= j <= |code|
    requires ByteLength(code[..i]) == n.startByte && ByteLength(code[..j]) == n.endByte
    ensures NodeText(n, code) == code[i..j]
    ensures ByteLength(NodeText(n, code)) == n.endByte - n.startByte
  {
    CharIndexAtBoundary(code, i);
    CharIndexAtBoundary(code, j);
    assert code[..j] == code[..i] + code[i..j];
    ByteLengthConcat(code[..i], code[i..j]);
  }

  /** On pure-ASCII source the byte-offset slice and the node text agree. */
  lemma NodeTextAsciiAgrees(n: Node, code: string)
    requires forall k :: 0 <= k < |code| ==> code[k] as int < 0x80
    ensures NodeText(n, code) == SliceAsWritten(n, code)
  {
    CharIndexAscii(code, n.startByte);
    CharIndexAscii(code, n.endByte);
  }

  /**
   * One two-byte character before a node shifts the byte-offset slice by one
   * character: in "#é\nx=1" the identifier `x` spans bytes 4..5, and slicing
   * the string at 4..5 yields "=".
   */
  lemma ByteOffsetSliceMisreadsNonAscii()
    ensures var code := "#é\nx=1";
            var x := Node("identifier", [], map[], 4, 5, 1, 1);
            SliceAsWritten(x, code) == "=" && NodeText(x, code) == "x"
  {
    var code := "#é\nx=1";
    var x := Node("identifier", [], map[], 4, 5, 1, 1);
    assert code[..3] == "#é\n";
    assert ByteLength(code[..3]) == 4 by {
      assert code[..3][1..] == "é\n";
      assert "é\n"[1..] == "\n";
      assert "\n"[1..] == "";
    }
    assert code[..4] == code[..3] + "x";
    ByteLengthConcat(code[..3], "x");
    assert "x"[1..] == "";
    CharIndexAtBoundary(code, 3);
    CharIndexAtBoundary(code, 4);
  }

}
