/** The fifteen palette slots of the page (colour pickers col1..col15 and their mirrored
    text fields), and the three ways they change: typing into a text field
    (syncTextToColor), loading a palette file (readPalText) and the built-in default. */
module PaletteForm {
  import opened Colour

  // ---------------------------------------------------------------------------
  // Text helpers: String.prototype.split('\n') and String.prototype.trim()

  /** String.prototype.split('\n'): every '\n' ends a line, so "" gives [""] and a
      trailing '\n' gives a trailing empty line. */
  function Split(s: string): (lines: seq<string>)
    ensures |lines| >= 1
    decreases |s|
  {
    if |s| == 0 then [""]
    else if s[0] == '\n' then [""] + Split(s[1..])
    else
      var rest := Split(s[1..]);
      [[s[0]] + rest[0]] + rest[1..]
  }

  /** Array.prototype.join('\n'), the inverse of Split. */
  function Join(lines: seq<string>): string
    requires |lines| >= 1
    decreases |lines|
  {
    if |lines| == 1 then lines[0] else lines[0] + "\n" + Join(lines[1..])
  }

  /** Split cuts at every '\n' and nowhere else: no line holds one, and joining the
      lines back with '\n' gives the text. */
  lemma {:induction false} SplitJoin(s: string)
    ensures Join(Split(s)) == s
    ensures forall i :: 0 <= i < |Split(s)| ==> '\n' !in Split(s)[i]
    decreases |s|
  {
    if |s| > 0 {
      var rest := Split(s[1..]);
      SplitJoin(s[1..]);
      if s[0] == '\n' {
        assert Split(s)[1..] == rest;
      } else {
        var r := Split(s);
        assert r[1..] == rest[1..];
        if |rest| == 1 {
          assert Join(r) == [s[0]] + rest[0];
        } else {
          assert Join(r) == [s[0]] + rest[0] + "\n" + Join(rest[1..]);
        }
        assert s == [s[0]] + s[1..];
        forall i | 0 <= i < |r|
          ensures '\n' !in r[i]
        {
          if i > 0 {
            assert r[i] == rest[i];
          }
        }
      }
    }
  }

  /** ECMAScript WhiteSpace and LineTerminator code points, which trim() removes. */
  predicate IsWhiteSpace(c: char) {
    || c as int in {0x09, 0x0A, 0x0B, 0x0C, 0x0D, 0x20, 0xA0, 0x1680}
    || 0x2000 <= c as int <= 0x200A
    || c as int in {0x2028, 0x2029, 0x202F, 0x205F, 0x3000, 0xFEFF}
  }

  function TrimStart(s: string): string
    decreases |s|
  {
    if |s| > 0 && IsWhiteSpace(s[0]) then TrimStart(s[1..]) else s
  }

  function TrimEnd(s: string): string
    decreases |s|
  {
    if |s| > 0 && IsWhiteSpace(s[|s| - 1]) then TrimEnd(s[..|s| - 1]) else s
  }

  /** String.prototype.trim() */
  function Trim(s: string): string {
    TrimEnd(TrimStart(s))
  }

  lemma {:induction false} TrimStartDrops(s: string)
    ensures |TrimStart(s)| <= |s| && TrimStart(s) == s[|s| - |TrimStart(s)|..]
    ensures forall i :: 0 <= i < |s| - |TrimStart(s)| ==> IsWhiteSpace(s[i])
    ensures |TrimStart(s)| > 0 ==> !IsWhiteSpace(TrimStart(s)[0])
    decreases |s|
  {
    if |s| > 0 && IsWhiteSpace(s[0]) {
      TrimStartDrops(s[1..]);
    }
  }

  lemma {:induction false} TrimEndDrops(s: string)
    ensures |TrimEnd(s)| <= |s| && TrimEnd(s) == s[..|TrimEnd(s)|]
    ensures forall i :: |TrimEnd(s)| <= i < |s| ==> IsWhiteSpace(s[i])
    ensures |TrimEnd(s)| > 0 ==> !IsWhiteSpace(TrimEnd(s)[|TrimEnd(s)| - 1])
    decreases |s|
  {
    if |s| > 0 && IsWhiteSpace(s[|s| - 1]) {
      TrimEndDrops(s[..|s| - 1]);
    }
  }

  /** trim() keeps a middle slice of the line, starting after the leading white space,
      and drops only white space around it. */
  lemma TrimSlice(s: string)
    ensures var k := |s| - |TrimStart(s)|;
            && 0 <= k && k + |Trim(s)| <= |s| && Trim(s) == s[k..k + |Trim(s)|]
            && (forall i :: 0 <= i < k ==> IsWhiteSpace(s[i]))
            && (forall i :: k + |Trim(s)| <= i < |s| ==> IsWhiteSpace(s[i]))
    ensures |Trim(s)| > 0 ==> !IsWhiteSpace(Trim(s)[0]) && !IsWhiteSpace(Trim(s)[|Trim(s)| - 1])
  {
    var u := TrimStart(s);
    TrimStartDrops(s);
    TrimEndDrops(u);
    var k := |s| - |u|;
    var t := Trim(s);
    assert t == s[k..k + |t|];
    forall i | k + |t| <= i < |s|
      ensures IsWhiteSpace(s[i])
    {
      assert s[i] == u[i - k];
    }
    if |t| > 0 {
      assert t[0] == u[0];
    }
  }

  // ---------------------------------------------------------------------------
  // readPalText

  /** The `#` prefix readPalText adds when a line does not start with one
      (charAt(0) of an empty line is "", so it gets the prefix too). */
  function WithHash(line: string): (c: string)
    ensures |c| > 0 && c[0] == '#'
  {
    if |line| == 0 || line[0] != '#' then "#" + line else line
  }

  /** The colour line i of a palette file proposes for slot i + 1. */
  function Candidate(lines: seq<string>, i: nat): string
    requires i < |lines|
  {
    WithHash(Trim(lines[i]))
  }

  // ---------------------------------------------------------------------------
  // The colour input

  /** What an <input type="color"> holds: six-digit hex in lower case. */
  predicate IsPickerValue(s: string) {
    |s| == 7 && s[0] == '#' && forall i :: 1 <= i < 7 ==> IsLowerHexDigit(s[i])
  }

  function LowerDigit(c: char): char {
    if 'A' <= c <= 'F' then (c as int - 'A' as int + 'a' as int) as char else c
  }

  /** The value a colour input takes when it is assigned a valid colour: the browser
      stores the colour in lower case. */
  function PickerValue(s: string): (v: string)
    requires IsValidHex(s)
    ensures IsPickerValue(v)
  {
    seq(7, i requires 0 <= i < 7 => LowerDigit(s[i]))
  }

  /** Storing a colour in a picker keeps the colour. */
  lemma PickerValueSameColour(s: string)
    requires IsValidHex(s)
    ensures HexToRgb(PickerValue(s)) == HexToRgb(s)
  {
    var v := PickerValue(s);
    forall i | 1 <= i < 7
      ensures HexValue(v[i]) == HexValue(s[i])
    {
    }
  }

  /** A picker's value is rgbToHex of the colour it was given. */
  lemma PickerValueIsRgbToHex(s: string)
    requires IsValidHex(s)
    ensures PickerValue(s) == RgbToHexOf(HexToRgb(s))
  {
    PickerValueSameColour(s);
    HexToRgbRoundTrip(PickerValue(s));
  }

  /** Assigning a picker its own value changes nothing. */
  lemma PickerValueKeepsStored(s: string)
    requires IsPickerValue(s)
    ensures PickerValue(s) == s
  {
    assert forall i :: 0 <= i < 7 ==> PickerValue(s)[i] == s[i];
  }

  // ---------------------------------------------------------------------------
  // Applying a palette file

  /** The slots after readPalText has looked at the first n lines, one line at a time. */
  function ApplyLines(slots: seq<string>, lines: seq<string>, n: nat): (r: seq<string>)
    requires n <= |lines| && n <= |slots|
    ensures |r| == |slots|
    decreases n
  {
    if n == 0 then slots
    else
      var prev := ApplyLines(slots, lines, n - 1);
      var c := Candidate(lines, n - 1);
      if IsValidHex(c) then prev[n - 1 := PickerValue(c)] else prev
  }

  /** The number of lines readPalText looks at: all of them up to line 14. */
  function LinesRead(lines: seq<string>): nat {
    if |lines| < 15 then |lines| else 15
  }

  /** What readPalText does to slot i: the proposal of line i, as the picker stores it,
      if there is such a line, i < 15, and the proposal is six-digit hex; otherwise the
      slot is unchanged. */
  lemma {:induction false} ApplyLinesAt(slots: seq<string>, lines: seq<string>, n: nat, i: nat)
    requires n <= |lines| && n <= |slots| && i < |slots|
    ensures ApplyLines(slots, lines, n)[i]
         == if i < n && IsValidHex(Candidate(lines, i)) then PickerValue(Candidate(lines, i)) else slots[i]
    decreases n
  {
    if n > 0 {
      ApplyLinesAt(slots, lines, n - 1, i);
    }
  }

  /** Whatever the file holds, every slot is still a picker value afterwards. */
  lemma ApplyLinesKeepsValid(slots: seq<string>, lines: seq<string>)
    requires |slots| == 15 && forall i :: 0 <= i < 15 ==> IsPickerValue(slots[i])
    ensures forall i :: 0 <= i < 15 ==> IsPickerValue(ApplyLines(slots, lines, LinesRead(lines))[i])
  {
    forall i | 0 <= i < 15
      ensures IsPickerValue(ApplyLines(slots, lines, LinesRead(lines))[i])
    {
      ApplyLinesAt(slots, lines, LinesRead(lines), i);
    }
  }

  /** A line that is six hex digits, bare or with '#', perhaps with white space around it
      (a '\r' of a CRLF file, say), sets its slot to '#' followed by the digits. */
  lemma BareHexLine(lines: seq<string>, i: nat, digits: string)
    requires i < |lines| && |digits| == 6 && forall k :: 0 <= k < 6 ==> IsHexDigit(digits[k])
    requires Trim(lines[i]) == digits || Trim(lines[i]) == "#" + digits
    ensures Candidate(lines, i) == "#" + digits && IsValidHex(Candidate(lines, i))
  {
    assert !IsWhiteSpace('#') && digits[0] != '#';
  }

  /** An empty (or all white-space) line proposes "#", which is never valid. */
  lemma EmptyLineRejected(lines: seq<string>, i: nat)
    requires i < |lines| && Trim(lines[i]) == ""
    ensures !IsValidHex(Candidate(lines, i))
  {
  }

  // ---------------------------------------------------------------------------
  // The default palette

  /** The colours the page falls back to when the palette file input is cleared. */
  const DefaultColors: seq<string> := [
    "#ffffff", "#ff2121", "#ff93c4",
    "#ff8135", "#fff609", "#249ca3",
    "#78dc52", "#003fad", "#87f2ff",
    "#8e2ec4", "#a4839f", "#5c406c",
    "#e5cdc4", "#91463d", "#000000"
  ]

  lemma DefaultColorsValid()
    ensures |DefaultColors| == 15 && forall i :: 0 <= i < 15 ==> IsPickerValue(DefaultColors[i])
  {
  }

  // ---------------------------------------------------------------------------
  // The slots

  /** Fifteen picker values, each with a text field naming the same colour. */
  ghost predicate Synced(ps: seq<string>, ts: seq<string>) {
    && |ps| == 15 && |ts| == 15
    && forall k :: 0 <= k < 15 ==> IsPickerValue(ps[k]) && IsValidHex(ts[k]) && PickerValue(ts[k]) == ps[k]
  }

  /** The text fields after readPalText has looked at n lines: a field whose line was
      applied shows its picker's value, the others keep their text t0. */
  ghost predicate TextsShow(ts: seq<string>, ps: seq<string>, t0: seq<string>, lines: seq<string>, n: nat)
    requires |ts| == 15 && |ps| == 15 && |t0| == 15 && n <= |lines|
  {
    forall k :: 0 <= k < 15 ==> ts[k] == if k < n && IsValidHex(Candidate(lines, k)) then ps[k] else t0[k]
  }

  /** Looking at line n: a valid candidate v goes to picker n and its text field. */
  lemma TextsShowStep(ts: seq<string>, ps: seq<string>, t0: seq<string>, lines: seq<string>, n: nat, v: string)
    requires |ts| == 15 && |ps| == 15 && |t0| == 15 && n < 15 && n < |lines|
    requires TextsShow(ts, ps, t0, lines, n)
    ensures IsValidHex(Candidate(lines, n)) ==> TextsShow(ts[n := v], ps[n := v], t0, lines, n + 1)
    ensures !IsValidHex(Candidate(lines, n)) ==> TextsShow(ts, ps, t0, lines, n + 1)
  {
  }

  /** syncColorToText after picker i took the value v. */
  lemma SyncedSet(ps: seq<string>, ts: seq<string>, i: nat, v: string)
    requires Synced(ps, ts) && i < 15 && IsPickerValue(v)
    ensures Synced(ps[i := v], ts[i := v])
  {
    PickerValueKeepsStored(v);
  }

  /** The fifteen colour pickers col1..col15 and their text fields. A picker always holds
      a picker value; a text field holds valid hex naming its picker's colour, in the
      letter case it was typed or, after the picker was synced to it, the picker's value. */
  class Slots {
    const pickers: array<string>
    const texts: array<string>

    ghost predicate Valid()
      reads pickers, texts
    {
      && pickers.Length == 15 && texts.Length == 15 && pickers != texts
      && Synced(pickers[..], texts[..])
    }

    /** A Valid form holding the default palette, as the reset at main.js:348-351 writes it. */
    constructor ()
      ensures Valid() && fresh(pickers) && fresh(texts)
      ensures pickers[..] == DefaultColors && texts[..] == DefaultColors
    {
      pickers := new string[15](i requires 0 <= i < 15 => DefaultColors[i]);
      texts := new string[15](i requires 0 <= i < 15 => DefaultColors[i]);
      new;
      assert pickers[..] == DefaultColors && texts[..] == DefaultColors;
      DefaultColorsValid();
      forall i | 0 <= i < 15
        ensures PickerValue(DefaultColors[i]) == DefaultColors[i]
      {
        PickerValueKeepsStored(DefaultColors[i]);
      }
    }

    /** syncTextToColor after the user has typed `typed` into text field i: valid hex goes
        to the picker, which stores it in lower case, and the text keeps what was typed;
        anything else is replaced by the picker's value. */
    method SyncTextToColor(i: nat, typed: string)
      requires Valid() && i < 15
      modifies pickers, texts
      ensures Valid()
      ensures IsValidHex(typed) ==>
        pickers[..] == old(pickers[..])[i := PickerValue(typed)] && texts[..] == old(texts[..])[i := typed]
      ensures !IsValidHex(typed) ==>
        pickers[..] == old(pickers[..]) && texts[..] == old(texts[..])[i := pickers[i]]
    {
      ghost var ps, ts := pickers[..], texts[..];
      texts[i] := typed;
      if IsValidHex(texts[i]) {
        pickers[i] := PickerValue(texts[i]);
        assert pickers[..] == ps[i := PickerValue(typed)] && texts[..] == ts[i := typed];
      } else {
        texts[i] := pickers[i];
        assert pickers[..] == ps && texts[..] == ts[i := ps[i]];
        SyncedSet(ps, ts, i, ps[i]);
        assert ps[i := ps[i]] == ps;
      }
    }

    /** readPalText: line i (after trim() and the '#' prefix) replaces slot i when it is
        valid hex, and the text field shows the picker's new value; lines from 15 on, and
        missing lines, change nothing. */
    method ReadPalText(palText: string)
      requires Valid()
      modifies pickers, texts
      ensures Valid()
      ensures pickers[..] == ApplyLines(old(pickers[..]), Split(palText), LinesRead(Split(palText)))
      ensures forall k :: 0 <= k < 15 ==>
        texts[k] == if k < LinesRead(Split(palText)) && IsValidHex(Candidate(Split(palText), k)) then pickers[k] else old(texts[k])
    {
      var lines := Split(palText);
      ghost var start := pickers[..];
      ghost var startTexts := texts[..];
      var i := 0;
      while i < |lines|
        invariant 0 <= i <= LinesRead(lines)
        invariant pickers[..] == ApplyLines(start, lines, i)
        invariant Synced(pickers[..], texts[..])
        invariant TextsShow(texts[..], pickers[..], startTexts, lines, i)
      {
        var line := Trim(lines[i]);
        if i < 15 {
          var color := WithHash(line);
          ghost var ps, ts := pickers[..], texts[..];
          if IsValidHex(color) {
            TextsShowStep(ts, ps, startTexts, lines, i, PickerValue(color));
            pickers[i] := PickerValue(color);
            texts[i] := pickers[i];
            assert pickers[..] == ps[i := PickerValue(color)] && texts[..] == ts[i := PickerValue(color)];
            SyncedSet(ps, ts, i, PickerValue(color));
          } else {
            TextsShowStep(ts, ps, startTexts, lines, i, color);
          }
        } else {
          return;
        }
        i := i + 1;
      }
    }

    /** The handler of the palette file input when no file is chosen: every picker (and its
        text field) takes the built-in default colour. */
    method ResetToDefault()
      requires Valid()
      modifies pickers, texts
      ensures Valid() && pickers[..] == DefaultColors && texts[..] == DefaultColors
    {
      DefaultColorsValid();
      var i := 0;
      while i < 15
        invariant 0 <= i <= 15
        invariant pickers[..i] == DefaultColors[..i] && texts[..i] == DefaultColors[..i]
        invariant Synced(pickers[..], texts[..])
      {
        ghost var ps, ts := pickers[..], texts[..];
        pickers[i] := DefaultColors[i];
        texts[i] := pickers[i];
        assert pickers[..] == ps[i := DefaultColors[i]] && texts[..] == ts[i := DefaultColors[i]];
        SyncedSet(ps, ts, i, DefaultColors[i]);
        i := i + 1;
      }
    }
  }
}
