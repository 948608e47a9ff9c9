module Texts {

  /** White space as `strings.TrimSpace` removes it. */
  predicate IsSpace(c: char) {
    || '\t' <= c <= '\r' || c == ' ' || c == '\U{0085}' || c == '\U{00A0}' || c == '\U{1680}'
    || '\U{2000}' <= c <= '\U{200A}' || c == '\U{2028}' || c == '\U{2029}' || c == '\U{202F}'
    || c == '\U{205F}' || c == '\U{3000}'
  }

  predicate AllSpace(s: string) {
    forall c :: c in s ==> IsSpace(c)
  }

  function Trim(s: string): string {
    if s == "" then ""
    else if IsSpace(s[0]) then Trim(s[1..])
    else if IsSpace(s[|s| - 1]) then Trim(s[..|s| - 1])
    else s
  }

  /** Trimming removes exactly the padding of a core that has none of its own. */
  lemma {:induction false} TrimRemovesPadding(before: string, core: string, after: string)
    requires AllSpace(before) && AllSpace(after)
    requires core != "" && !IsSpace(core[0]) && !IsSpace(core[|core| - 1])
    ensures Trim(before + core + after) == core
    decreases |before| + |after|
  {
    var s := before + core + after;
    if before != "" {
      assert s[1..] == before[1..] + core + after;
      assert IsSpace(before[0]);
      TrimRemovesPadding(before[1..], core, after);
    } else if after != "" {
      var rest := after[..|after| - 1];
      assert s[..|s| - 1] == before + core + rest;
      assert IsSpace(after[|after| - 1]);
      TrimRemovesPadding(before, core, rest);
    } else {
      assert s == core;
    }
  }

  lemma {:induction false} TrimOfSpace(s: string)
    requires AllSpace(s)
    ensures Trim(s) == ""
  {
    if s == "" {
    } else {
      assert s[0] in s;
      TrimOfSpace(s[1..]);
    }
  }

  /** Blanks, tabs, line ends and the no-break space are white space; no printable ASCII character is. */
  lemma WhatSpaceIs(c: char)
    ensures c in " \t\n\r\U{00A0}\U{2003}\U{3000}" ==> IsSpace(c)
    ensures '!' <= c <= '~' ==> !IsSpace(c)
  {
  }

  /** How many bytes a character takes in UTF-8. */
  function Utf8Width(c: char): nat {
    if c < '\U{0080}' then 1 else if c < '\U{0800}' then 2 else if c < '\U{10000}' then 3 else 4
  }

  /** Go's `len` of a string. */
  function ByteLength(s: string): nat {
    if s == "" then 0 else ByteLength(s[..|s| - 1]) + Utf8Width(s[|s| - 1])
  }

  predicate IsAscii(c: char) {
    c < '\U{0080}'
  }

  lemma {:induction false} AsciiByteLength(s: string)
    requires forall i :: 0 <= i < |s| ==> IsAscii(s[i])
    ensures ByteLength(s) == |s|
  {
    if s == "" {
    } else {
      AsciiByteLength(s[..|s| - 1]);
    }
  }
}
