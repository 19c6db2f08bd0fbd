/**
 * How a codeword is spelled. While the tree is walked, each child position `i` becomes one element of
 * the child's `code` list: the integer itself while `i <= 9`, otherwise the character that
 * `_large_base_convert` returns for it. When a leaf is reached the list is joined into a string with
 * `str` applied to every element.
 */
module Digits {

  /**
   * The largest radix the model admits. A digit d > 9 is rendered as the character with code point
   * d + 87; below this bound that code point lies under the UTF-16 surrogate range, so it is a
   * character in Dafny's sense.
   */
  const MaxRadix: nat := 0xD800 - 87

  /**
   * One element of a node's `code` list: a child position 0..9, or for a larger position the
   * character with code point position + 87.
   */
  datatype CodeItem = Digit(d: nat) | Alpha(c: char)

  /**
   * The value a codeword character stands for: '0'..'9' are 0..9, 'a' and every character after it
   * stand for 10, 11, ...; every other character is no digit (-1).
   */
  function DigitValue(c: char): int
  {
    if '0' <= c <= '9' then c as int - '0' as int
    else if 'a' <= c then c as int - 'a' as int + 10
    else -1
  }

  /** `c` spells a digit of a radix-`radix` code. */
  predicate ValidDigit(c: char, radix: nat)
  {
    0 <= DigitValue(c) < radix
  }

  /** `_large_base_convert`: the character `(number - 9) + (ord('a') - 1)`, so 10 is 'a', 11 is 'b'. */
  function LargeBaseConvert(number: nat): (c: char)
    requires number < MaxRadix
    ensures 10 <= number ==> 'a' <= c && DigitValue(c) == number
  {
    ((number - 9) + ('a' as int - 1)) as char
  }

  /** Python's `str` of a non-negative integer: its decimal digits, most significant first. */
  function DecimalString(n: nat): (s: string)
    ensures 1 <= |s|
    ensures forall k :: 0 <= k < |s| ==> '0' <= s[k] <= '9'
    ensures n <= 9 ==> |s| == 1 && DigitValue(s[0]) == n
    ensures 9 < n ==> 2 <= |s|
  {
    if n <= 9 then [('0' as int + n) as char]
    else DecimalString(n / 10) + DecimalString(n % 10)
  }

  /** The element a child at position `i` appends to its code (huffman.py lines 128-129). */
  function ToItem(i: nat): (e: CodeItem)
    requires i < MaxRadix
    ensures e.Digit? <==> i <= 9
    ensures e.Digit? ==> e.d == i
    ensures e.Alpha? ==> DigitValue(e.c) == i
  {
    if i > 9 then Alpha(LargeBaseConvert(i)) else Digit(i)
  }

  /** `str(e)` for one element of a code list. */
  function ItemString(e: CodeItem): string
  {
    match e
    case Digit(d) => DecimalString(d)
    case Alpha(c) => [c]
  }

  /** The string a child position contributes to a codeword: one character that reads back as `i`. */
  function DigitString(i: nat): (s: string)
    requires i < MaxRadix
    ensures |s| == 1 && DigitValue(s[0]) == i
  {
    ItemString(ToItem(i))
  }

  /** `''.join(str(e) for e in code)`: the codeword a leaf's code list spells. */
  function Render(code: seq<CodeItem>): string
  {
    if code == [] then [] else Render(code[..|code| - 1]) + ItemString(code[|code| - 1])
  }

  /** The code-list elements for a sequence of child positions. */
  function Items(path: seq<nat>): (items: seq<CodeItem>)
    requires forall k :: 0 <= k < |path| ==> path[k] < MaxRadix
  {
    seq(|path|, k requires 0 <= k < |path| => ToItem(path[k]))
  }

  /** Joining distributes over concatenation of code lists. */
  lemma {:induction false} RenderAppend(a: seq<CodeItem>, b: seq<CodeItem>)
    ensures Render(a + b) == Render(a) + Render(b)
    decreases |b|
  {
    if b == [] {
      assert a + b == a;
    } else {
      var b', e := b[..|b| - 1], b[|b| - 1];
      assert a + b != [] && (a + b)[..|a + b| - 1] == a + b' && (a + b)[|a + b| - 1] == e;
      assert Render(a + b) == Render(a + b') + ItemString(e);
      RenderAppend(a, b');
      assert Render(b) == Render(b') + ItemString(e);
    }
  }

  /**
   * A sequence of child positions renders as one character per position, and each character reads
   * back as its position: the rendering loses nothing.
   */
  lemma {:induction false} RenderItems(path: seq<nat>)
    requires forall k :: 0 <= k < |path| ==> path[k] < MaxRadix
    ensures |Render(Items(path))| == |path|
    ensures forall k :: 0 <= k < |path| ==> DigitValue(Render(Items(path))[k]) == path[k]
    decreases |path|
  {
    if path != [] {
      var p' := path[..|path| - 1];
      assert Items(path)[..|path| - 1] == Items(p');
      RenderItems(p');
      var last := DigitString(path[|path| - 1]);
      assert Render(Items(path)) == Render(Items(p')) + last;
    }
  }

  /** The elements for a path that starts with `i`. */
  lemma ItemsCons(i: nat, path: seq<nat>)
    requires i < MaxRadix && forall k :: 0 <= k < |path| ==> path[k] < MaxRadix
    ensures Items([i] + path) == [ToItem(i)] + Items(path)
  {
  }

  /** Extending a code list by the element for position `i` appends that position's character. */
  lemma RenderStep(code: seq<CodeItem>, i: nat)
    requires i < MaxRadix
    ensures Render(code + [ToItem(i)]) == Render(code) + DigitString(i)
  {
    assert (code + [ToItem(i)])[..|code|] == code;
  }
}
