/** What several modules share. */
module Common {
  datatype Option<+T> = None | Some(value: T)

  function Max(a: int, b: int): int {
    if a < b then b else a
  }

  function Min(a: int, b: int): int {
    if a < b then a else b
  }

  /** The index of the first occurrence, or the length when there is none. */
  function IndexOf<T(==)>(xs: seq<T>, x: T): (i: nat)
    ensures i <= |xs| && (i < |xs| ==> xs[i] == x)
    ensures forall j :: 0 <= j < i ==> xs[j] != x
  {
    if xs == [] || xs[0] == x then 0 else 1 + IndexOf(xs[1..], x)
  }

  const WHITESPACE := " \t\n\r\U{0B}\U{0C}"

  /** Nothing but whitespace. */
  predicate Blank(text: string) {
    forall c :: c in text ==> c in WHITESPACE
  }

  /** The text without whitespace at either end. */
  function Strip(text: string): string {
    if text == "" then ""
    else if text[0] in WHITESPACE then Strip(text[1..])
    else if text[|text| - 1] in WHITESPACE then Strip(text[..|text| - 1])
    else text
  }

  /** `r` is `text` without the whitespace before `i` and from `j` on. */
  ghost predicate StripsTo(text: string, i: nat, j: nat, r: string) {
    i <= j <= |text| && Blank(text[..i]) && Blank(text[j..]) && r == text[i..j]
  }

  lemma StripsFront(text: string, i: nat, j: nat, r: string)
    requires text != "" && text[0] in WHITESPACE && StripsTo(text[1..], i, j, r)
    ensures StripsTo(text, i + 1, j + 1, r)
  {
    assert text[..i + 1] == [text[0]] + text[1..][..i] && text[j + 1..] == text[1..][j..];
  }

  lemma StripsBack(text: string, i: nat, j: nat, r: string)
    requires text != "" && text[|text| - 1] in WHITESPACE && StripsTo(text[..|text| - 1], i, j, r)
    ensures StripsTo(text, i, j, r)
  {
    var n := |text| - 1;
    assert text[..i] == text[..n][..i] && text[j..] == text[..n][j..] + [text[n]];
  }

  /** Stripping takes whitespace off both ends, all of it, and nothing else. */
  lemma {:induction false} StripTakesEnds(text: string)
    ensures exists i, j :: StripsTo(text, i, j, Strip(text))
    ensures Strip(text) != "" ==>
              Strip(text)[0] !in " \t\n\r\U{0B}\U{0C}" && Strip(text)[|Strip(text)| - 1] !in " \t\n\r\U{0B}\U{0C}"
    decreases |text|
  {
    hide StripsTo;
    if text == "" {
      NothingToStrip(text);
      assert StripsTo(text, 0, |text|, Strip(text));
    } else if text[0] in WHITESPACE {
      StripTakesEnds(text[1..]);
      var i, j :| StripsTo(text[1..], i, j, Strip(text[1..]));
      StripsFront(text, i, j, Strip(text));
    } else if text[|text| - 1] in WHITESPACE {
      StripTakesEnds(text[..|text| - 1]);
      var i, j :| StripsTo(text[..|text| - 1], i, j, Strip(text[..|text| - 1]));
      StripsBack(text, i, j, Strip(text));
    } else {
      NothingToStrip(text);
      assert StripsTo(text, 0, |text|, Strip(text));
    }
  }

  lemma NothingToStrip(text: string)
    ensures StripsTo(text, 0, |text|, text)
  {
  }

  type Byte = b: int | 0 <= b < 256

  predicate IsAscii(text: string) {
    forall i :: 0 <= i < |text| ==> text[i] as int < 128
  }

  function Ascii(text: string): (b: seq<Byte>)
    requires IsAscii(text)
    ensures |b| == |text|
  {
    seq(|text|, i requires 0 <= i < |text| => text[i] as int)
  }
}
