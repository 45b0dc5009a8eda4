/**
  The string operations the script relies on, with the meaning Python
  gives them: `str.lower` (as far as it can produce ASCII letters),
  `needle in haystack`, `str.startswith` and `str.strip()` with no argument.
 */
module Text {

  // ---------------------------------------------------------------------
  // Lower-casing
  // ---------------------------------------------------------------------

  /** True of 'A'..'Z'. */
  predicate IsUpper(c: char) {
    'A' <= c <= 'Z'
  }

  /**
    `c.lower()` for every character whose lower case holds an ASCII letter:
    'A'..'Z'; U+0130 (capital I with dot above), which lowers to "i" followed
    by U+0307 (combining dot above); and U+212A (Kelvin sign), which lowers to
    "k". Every other character is left as it is.
   */
  function LowerChar(c: char): (r: string)
    ensures 1 <= |r| <= 2
    ensures c != '\U{130}' ==> |r| == 1
    ensures forall i :: 0 <= i < |r| ==> !IsUpper(r[i])
  {
    if IsUpper(c) then [(c as int + 32) as char]
    else if c == '\U{130}' then "i\U{307}"
    else if c == '\U{212A}' then "k"
    else [c]
  }

  /** `s.lower()`: each character lowered on its own, in order. */
  function Lower(s: string): (r: string)
    ensures |s| <= |r| <= 2 * |s|
    ensures (forall i :: 0 <= i < |s| ==> s[i] != '\U{130}') ==> |r| == |s|
    ensures forall i :: 0 <= i < |r| ==> !IsUpper(r[i])
  {
    if s == [] then [] else LowerChar(s[0]) + Lower(s[1..])
  }

  /** Lower-casing a concatenation lower-cases each part. */
  lemma {:induction false} LowerAppend(a: string, b: string)
    ensures Lower(a + b) == Lower(a) + Lower(b)
    decreases |a|
  {
    if a == [] {
      assert a + b == b;
    } else {
      assert (a + b)[0] == a[0] && (a + b)[1..] == a[1..] + b;
      LowerAppend(a[1..], b);
    }
  }

  /** A lowered character lowers to itself. */
  lemma LowerCharStable(c: char)
    ensures Lower(LowerChar(c)) == LowerChar(c)
  {
    var r := LowerChar(c);
    if c == '\U{130}' {
      assert r == ['i'] + ['\U{307}'];
      LowerAppend(['i'], ['\U{307}']);
    } else {
      assert r == [r[0]] && r[1..] == [];
    }
  }

  /** Text with no character that lower-casing changes is its own lower case. */
  lemma {:induction false} LowerUnchanged(s: string)
    requires forall i :: 0 <= i < |s| ==> !IsUpper(s[i]) && s[i] != '\U{130}' && s[i] != '\U{212A}'
    ensures Lower(s) == s
    decreases |s|
  {
    if s != [] {
      LowerUnchanged(s[1..]);
    }
  }

  /** Lower-casing twice is lower-casing once. */
  lemma {:induction false} LowerIdempotent(s: string)
    ensures Lower(Lower(s)) == Lower(s)
    decreases |s|
  {
    if s != [] {
      LowerAppend(LowerChar(s[0]), Lower(s[1..]));
      LowerCharStable(s[0]);
      LowerIdempotent(s[1..]);
    }
  }

  // ---------------------------------------------------------------------
  // Prefixes and substrings
  // ---------------------------------------------------------------------

  /** `s.startswith(prefix)`. */
  predicate StartsWith(s: string, prefix: string) {
    |prefix| <= |s| && s[..|prefix|] == prefix
  }

  /** Text starts with whatever was put in front of it. */
  lemma StartsWithConcat(prefix: string, rest: string)
    ensures StartsWith(prefix + rest, prefix)
  {
    assert (prefix + rest)[..|prefix|] == prefix;
  }

  /** A prefix of a prefix is a prefix. */
  lemma StartsWithTrans(s: string, t: string, prefix: string)
    requires StartsWith(s, t) && StartsWith(t, prefix)
    ensures StartsWith(s, prefix)
  {
    assert s[..|prefix|] == s[..|t|][..|prefix|];
  }

  /** `sub` sits in `s` at position `i`. */
  ghost predicate OccursAt(s: string, sub: string, i: int) {
    0 <= i && i + |sub| <= |s| && s[i..i + |sub|] == sub
  }

  /** Dropping a first character that does not start `sub` keeps the occurrences, shifted by one. */
  lemma OccursShift(s: string, sub: string)
    requires s != [] && !StartsWith(s, sub)
    ensures (exists i :: OccursAt(s, sub, i)) <==> (exists i :: OccursAt(s[1..], sub, i))
  {
    forall i | OccursAt(s[1..], sub, i) ensures OccursAt(s, sub, i + 1) {
      assert s[1..][i..i + |sub|] == s[i + 1..i + 1 + |sub|];
    }
    forall i | OccursAt(s, sub, i) ensures OccursAt(s[1..], sub, i - 1) {
      assert i != 0;
      assert s[1..][i - 1..i - 1 + |sub|] == s[i..i + |sub|];
    }
  }

  /** `sub in s`: tries every start position from the left; true exactly when `sub` occurs somewhere. */
  predicate Contains(s: string, sub: string)
    ensures Contains(s, sub) <==> exists i :: OccursAt(s, sub, i)
    decreases |s|
  {
    if StartsWith(s, sub) then
      assert OccursAt(s, sub, 0);
      true
    else if s == [] then
      assert forall i :: !OccursAt(s, sub, i);
      false
    else
      OccursShift(s, sub);
      Contains(s[1..], sub)
  }

  /** Wherever `sub` sits, it is found. */
  lemma ContainsInfix(before: string, sub: string, after: string)
    ensures Contains(before + sub + after, sub)
  {
    var s := before + sub + after;
    assert s[|before|..|before| + |sub|] == sub;
    assert OccursAt(s, sub, |before|);
  }

  /**
    An occurrence of `sub` in `s` is an occurrence of `Lower(sub)` in
    `Lower(s)`. This is a property of the character-by-character lowering
    modelled here; Python's `str.lower` is context-sensitive for the Greek
    final sigma (`"Σ" in "ΑΣ"` holds, `"σ" in "ας"` does not), which no ASCII
    keyword can meet.
   */
  lemma LowerKeepsOccurrence(s: string, sub: string)
    requires Contains(s, sub)
    ensures Contains(Lower(s), Lower(sub))
  {
    var i :| OccursAt(s, sub, i);
    var before, after := s[..i], s[i + |sub|..];
    assert s == before + sub + after;
    LowerAppend(before + sub, after);
    LowerAppend(before, sub);
    ContainsInfix(Lower(before), Lower(sub), Lower(after));
  }

  // ---------------------------------------------------------------------
  // Stripping whitespace
  // ---------------------------------------------------------------------

  /**
    `c.isspace()`: the characters `str.strip()` removes by default, by code
    point: tab to carriage return, the four separators 0x1C-0x1F, space,
    next line, no-break space, and the Unicode spaces and line separators.
   */
  predicate IsSpace(c: char) {
    var n := c as int;
    || 0x9 <= n <= 0xD
    || 0x1C <= n <= 0x20
    || n == 0x85 || n == 0xA0 || n == 0x1680
    || 0x2000 <= n <= 0x200A
    || n == 0x2028 || n == 0x2029 || n == 0x202F || n == 0x205F || n == 0x3000
  }

  ghost predicate AllSpace(s: string) {
    forall k :: 0 <= k < |s| ==> IsSpace(s[k])
  }

  /** `s.lstrip()`: drops the leading whitespace and nothing else. */
  function TrimStart(s: string): (r: string)
    ensures |r| <= |s| && r == s[|s| - |r|..]
    ensures forall k :: 0 <= k < |s| - |r| ==> IsSpace(s[k])
    ensures r == [] || !IsSpace(r[0])
  {
    if s != [] && IsSpace(s[0]) then TrimStart(s[1..]) else s
  }

  /** `s.rstrip()`: drops the trailing whitespace and nothing else. */
  function TrimEnd(s: string): (r: string)
    ensures |r| <= |s| && r == s[..|r|]
    ensures forall k :: |r| <= k < |s| ==> IsSpace(s[k])
    ensures r == [] || !IsSpace(r[|r| - 1])
  {
    if s != [] && IsSpace(s[|s| - 1]) then TrimEnd(s[..|s| - 1]) else s
  }

  /**
    `s.strip()`: no whitespace is left at either end, and the result is empty
    exactly when `s` is all whitespace.
   */
  function Strip(s: string): (r: string)
    ensures r == [] <==> AllSpace(s)
    ensures r != [] ==> !IsSpace(r[0]) && !IsSpace(r[|r| - 1])
  {
    var t := TrimStart(s);
    var r := TrimEnd(t);
    if r == [] then
      assert t == [];
      r
    else
      assert r[0] == t[0] == s[|s| - |t|];
      r
  }

  lemma {:induction false} TrimStartSkipsSpace(space: string, rest: string)
    requires AllSpace(space)
    requires rest == [] || !IsSpace(rest[0])
    ensures TrimStart(space + rest) == rest
    decreases |space|
  {
    if space != [] {
      assert (space + rest)[1..] == space[1..] + rest;
      TrimStartSkipsSpace(space[1..], rest);
    } else {
      assert space + rest == rest;
    }
  }

  lemma {:induction false} TrimEndSkipsSpace(rest: string, space: string)
    requires AllSpace(space)
    requires rest == [] || !IsSpace(rest[|rest| - 1])
    ensures TrimEnd(rest + space) == rest
    decreases |space|
  {
    if space != [] {
      assert (rest + space)[..|rest + space| - 1] == rest + space[..|space| - 1];
      TrimEndSkipsSpace(rest, space[..|space| - 1]);
    } else {
      assert rest + space == rest;
    }
  }

  /**
    Stripping removes exactly the surrounding whitespace: text with no
    whitespace at either end, padded with any whitespace, strips back to itself.
   */
  lemma StripPadded(front: string, core: string, back: string)
    requires AllSpace(front) && AllSpace(back)
    requires core == [] || (!IsSpace(core[0]) && !IsSpace(core[|core| - 1]))
    ensures Strip(front + core + back) == core
  {
    var rest := core + back;
    if core == [] {
      assert AllSpace(front + back);
      assert front + core + back == (front + back) + [];
      TrimStartSkipsSpace(front + back, []);
      assert Strip(front + core + back) == TrimEnd([]);
    } else {
      assert front + core + back == front + rest;
      TrimStartSkipsSpace(front, rest);
      TrimEndSkipsSpace(core, back);
    }
  }

  /** Stripping twice is stripping once. */
  lemma StripIdempotent(s: string)
    ensures Strip(Strip(s)) == Strip(s)
  {
    var r := Strip(s);
    StripPadded([], r, []);
    assert [] + r + [] == r;
  }
}
