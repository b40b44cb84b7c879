/**
 * The byte-stream front end: the single-byte fold `_unicodeEasy`, the codes
 * `print` hands to `writeC` for a text, and the length of a NUL-terminated
 * string as `strlen` computes it.
 */
module Stream {
  import opened Bytes

  /** True for the bytes in 132..190 other than 176, which `_unicodeEasy` moves up by 64. */
  predicate Folded(c: uint8)
  {
    131 < c < 191 && c != 176
  }

  /**
   * `_unicodeEasy(c)`: adds 64 to the bytes of the folded range and leaves
   * every other byte alone. The addition never leaves the byte range: a
   * folded byte lands in 196..254, never on 240.
   */
  function UnicodeEasy(c: uint8): (r: uint8)
    ensures Folded(c) ==> r == c + 64 && 196 <= r <= 254 && r != 240
    ensures !Folded(c) ==> r == c
  {
    if c < 191 && c > 131 && c != 176 then c + 64 else c
  }

  /** Folding twice is folding once: no result of the fold lies in the folded range. */
  lemma UnicodeEasyIdempotent(c: uint8)
    ensures !Folded(UnicodeEasy(c)) || UnicodeEasy(c) == c
    ensures UnicodeEasy(UnicodeEasy(c)) == UnicodeEasy(c)
  {
  }

  /** The two lead bytes `print` and `println` skip. */
  predicate IsLeadByte(b: uint8)
  {
    b == 194 || b == 195
  }

  /**
   * The codes `print(text)` passes to `writeC`, in order: one code,
   * `_unicodeEasy(b)`, per byte b of the text that is not a lead byte.
   */
  function PrintCodes(text: seq<uint8>): (codes: seq<uint8>)
    decreases |text|
  {
    if text == [] then []
    else
      var b := text[|text| - 1];
      PrintCodes(text[..|text| - 1]) + (if IsLeadByte(b) then [] else [UnicodeEasy(b)])
  }

  /**
   * No code `print` hands on is a lead byte, and code k is the fold of a
   * byte of the text that is not a lead byte.
   */
  lemma {:induction false} PrintCodesNoLeadBytes(text: seq<uint8>)
    ensures forall k :: 0 <= k < |PrintCodes(text)| ==>
              !IsLeadByte(PrintCodes(text)[k]) &&
              exists b :: b in text && !IsLeadByte(b) && PrintCodes(text)[k] == UnicodeEasy(b)
    decreases |text|
  {
    if text != [] {
      var pre := text[..|text| - 1];
      PrintCodesNoLeadBytes(pre);
      var b := text[|text| - 1];
      forall k | 0 <= k < |PrintCodes(text)|
        ensures !IsLeadByte(PrintCodes(text)[k])
        ensures exists b :: b in text && !IsLeadByte(b) && PrintCodes(text)[k] == UnicodeEasy(b)
      {
        if k < |PrintCodes(pre)| {
          var d :| d in pre && !IsLeadByte(d) && PrintCodes(pre)[k] == UnicodeEasy(d);
          assert d in text;
        } else {
          assert b in text;
        }
      }
    }
  }

  /** Number of lead bytes in a text. */
  function LeadBytes(text: seq<uint8>): nat
    decreases |text|
  {
    if text == [] then 0
    else LeadBytes(text[..|text| - 1]) + (if IsLeadByte(text[|text| - 1]) then 1 else 0)
  }

  /** The codes of a concatenation are the codes of its parts, concatenated: the front end keeps no state between bytes. */
  lemma {:induction false} PrintCodesAppend(a: seq<uint8>, b: seq<uint8>)
    ensures PrintCodes(a + b) == PrintCodes(a) + PrintCodes(b)
    decreases |b|
  {
    if b == [] {
      assert a + b == a;
    } else {
      var b' := b[..|b| - 1];
      assert (a + b)[..|a + b| - 1] == a + b';
      PrintCodesAppend(a, b');
    }
  }

  /** One code per byte that is not a lead byte: exactly |text| minus the number of lead bytes. */
  lemma {:induction false} PrintCodesCount(text: seq<uint8>)
    ensures |PrintCodes(text)| == |text| - LeadBytes(text)
    decreases |text|
  {
    if text != [] {
      PrintCodesCount(text[..|text| - 1]);
    }
  }

  /** A text without lead bytes and without bytes of the folded range is passed through unchanged. */
  lemma {:induction false} PrintCodesPlainText(text: seq<uint8>)
    requires forall k :: 0 <= k < |text| ==> !IsLeadByte(text[k]) && !Folded(text[k])
    ensures PrintCodes(text) == text
    decreases |text|
  {
    if text != [] {
      PrintCodesPlainText(text[..|text| - 1]);
    }
  }

  /**
   * `strlen(s)`: the index of the first NUL byte of a NUL-terminated string;
   * the bytes before it are the string's contents.
   */
  function StrLen(s: seq<uint8>): (n: nat)
    requires 0 in s
    ensures n < |s| && s[n] == 0
    ensures forall k :: 0 <= k < n ==> s[k] != 0
  {
    if s[0] == 0 then 0 else 1 + StrLen(s[1..])
  }
}
