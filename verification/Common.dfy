/** Shared vocabulary: optional values, results, and byte strings. */
module Common {

  datatype Option<+T> = None | Some(value: T)

  datatype Result<+T, +E> = Ok(value: T) | Err(error: E)

  type byte = b: int | 0 <= b < 256

  type bytes = seq<byte>

  /** Whether `s` begins with `prefix`. */
  predicate StartsWith(s: string, prefix: string) {
    |prefix| <= |s| && s[..|prefix|] == prefix
  }

  /** Whether `s` ends with `suffix`. */
  predicate EndsWith(s: string, suffix: string) {
    |suffix| <= |s| && s[|s| - |suffix|..] == suffix
  }

  /** The characters of `s` are all ASCII. */
  predicate IsAscii(s: string) {
    forall i :: 0 <= i < |s| ==> s[i] as int < 128
  }

  /** Removes from both ends of `s` every character for which `drop` holds. */
  function Strip(s: string, drop: char -> bool): (r: string)
    ensures |r| <= |s|
    ensures r != "" ==> !drop(r[0]) && !drop(r[|r| - 1])
    ensures forall i :: 0 <= i < |r| ==> r[i] in s
  {
    if s != "" && drop(s[0]) then Strip(s[1..], drop)
    else if s != "" && drop(s[|s| - 1]) then Strip(s[..|s| - 1], drop)
    else s
  }

  /** `str.isspace`, which is what an argument-less `strip` removes. */
  predicate IsPySpace(c: char) {
    var n := c as int;
    || 0x09 <= n <= 0x0D || 0x1C <= n <= 0x20 || n == 0x85 || n == 0xA0 || n == 0x1680
    || 0x2000 <= n <= 0x200A || n == 0x2028 || n == 0x2029 || n == 0x202F || n == 0x205F || n == 0x3000
  }

  /** The 29 characters, one by one. */
  lemma PySpaceExactly(c: char)
    ensures IsPySpace(c) <==> c as int in {
              0x09, 0x0A, 0x0B, 0x0C, 0x0D, 0x1C, 0x1D, 0x1E, 0x1F, 0x20, 0x85, 0xA0, 0x1680, 0x2000, 0x2001, 0x2002,
              0x2003, 0x2004, 0x2005, 0x2006, 0x2007, 0x2008, 0x2009, 0x200A, 0x2028, 0x2029, 0x202F, 0x205F, 0x3000
            }
  {
  }

  lemma StripFront(s: string, drop: char -> bool)
    requires s != "" && drop(s[0])
    ensures Strip(s, drop) == Strip(s[1..], drop)
  {
  }

  lemma StripBack(s: string, drop: char -> bool)
    requires s != "" && !drop(s[0]) && drop(s[|s| - 1])
    ensures Strip(s, drop) == Strip(s[..|s| - 1], drop)
  {
  }

  /** Dropped characters after a kept core disappear. */
  lemma {:induction false} StripPaddedBack(core: string, after: string, drop: char -> bool)
    requires forall i :: 0 <= i < |after| ==> drop(after[i])
    requires core != "" && !drop(core[0]) && !drop(core[|core| - 1])
    ensures Strip(core + after, drop) == core
    decreases |after|
  {
    var s := core + after;
    if after == "" {
      assert s == core;
    } else {
      assert s[0] == core[0] && s[|s| - 1] == after[|after| - 1];
      StripBack(s, drop);
      assert s[..|s| - 1] == core + after[..|after| - 1];
      StripPaddedBack(core, after[..|after| - 1], drop);
    }
  }

  /** Dropped characters alone leave nothing. */
  lemma {:induction false} StripAll(s: string, drop: char -> bool)
    requires forall i :: 0 <= i < |s| ==> drop(s[i])
    ensures Strip(s, drop) == ""
  {
    if s != "" {
      StripFront(s, drop);
      StripAll(s[1..], drop);
    }
  }

  lemma {:induction false} StripPaddedFront(before: string, rest: string, drop: char -> bool)
    requires forall i :: 0 <= i < |before| ==> drop(before[i])
    ensures Strip(before + rest, drop) == Strip(rest, drop)
  {
    if before == "" {
      assert before + rest == rest;
    } else {
      var s := before + rest;
      assert s[0] == before[0] && s[1..] == before[1..] + rest;
      StripFront(s, drop);
      StripPaddedFront(before[1..], rest, drop);
    }
  }

  lemma Regrouped(a: string, b: string, c: string)
    ensures a + b + c == a + (b + c)
  {
  }

  lemma StripPaddedRest(core: string, after: string, drop: char -> bool)
    requires forall i :: 0 <= i < |after| ==> drop(after[i])
    requires core != "" ==> !drop(core[0]) && !drop(core[|core| - 1])
    ensures Strip(core + after, drop) == core
  {
    if core == "" {
      assert core + after == after;
      StripAll(after, drop);
    } else {
      StripPaddedBack(core, after, drop);
    }
  }

  /** Padding made only of dropped characters disappears, and the kept core is returned whole. */
  lemma StripPadded(before: string, core: string, after: string, drop: char -> bool)
    requires forall i :: 0 <= i < |before| ==> drop(before[i])
    requires forall i :: 0 <= i < |after| ==> drop(after[i])
    requires core != "" ==> !drop(core[0]) && !drop(core[|core| - 1])
    ensures Strip(before + core + after, drop) == core
  {
    Regrouped(before, core, after);
    StripPaddedFront(before, core + after, drop);
    StripPaddedRest(core, after, drop);
  }

  /** Dropped characters added at either end make no difference to what is kept. */
  lemma {:induction false} StripSurrounded(before: string, s: string, after: string, drop: char -> bool)
    requires forall i :: 0 <= i < |before| ==> drop(before[i])
    requires forall i :: 0 <= i < |after| ==> drop(after[i])
    ensures Strip(before + s + after, drop) == Strip(s, drop)
    decreases |s|
  {
    if s != "" && drop(s[0]) {
      assert before + s + after == (before + [s[0]]) + s[1..] + after;
      StripSurrounded(before + [s[0]], s[1..], after, drop);
    } else if s != "" && drop(s[|s| - 1]) {
      assert before + s + after == before + s[..|s| - 1] + ([s[|s| - 1]] + after);
      StripSurrounded(before, s[..|s| - 1], [s[|s| - 1]] + after, drop);
    } else {
      StripPadded(before, s, after, drop);
    }
  }

  /** A character that is not dropped survives. */
  lemma {:induction false} StripKeeps(s: string, drop: char -> bool, i: nat)
    requires i < |s| && !drop(s[i])
    ensures s[i] in Strip(s, drop)
  {
    if drop(s[0]) {
      StripKeeps(s[1..], drop, i - 1);
    } else if drop(s[|s| - 1]) {
      StripKeeps(s[..|s| - 1], drop, i);
    }
  }
}
