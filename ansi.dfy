/*
 * The text helpers of src/app/_components/ansi.tsx: `fixBackspace`, which
 * applies backspace characters to terminal output before it is parsed for
 * ANSI escapes, and `createClass`, which turns the colours and decoration
 * of one parsed ANSI span into CSS class names through three fixed tables.
 *
 * Strings are sequences of `char`, which in Dafny are Unicode scalar
 * values; JavaScript sees UTF-16 code units, so the two agree only on text
 * without characters outside the Basic Multilingual Plane.
 */
module Ansi {

  datatype Option<T> = None | Some(value: T)

  /** The backspace control character, U+0008. */
  const Backspace: char := '\U{8}'

  // ---------------------------------------------------------------------
  // fixBackspace

  /**
   * One call of `txt.replace(/[^\n]\x08/gm, "")`: scanning left to right,
   * every character other than a newline that is directly followed by a
   * backspace is deleted together with that backspace; matches do not
   * overlap, and scanning resumes after each deleted pair.
   */
  function RemovePairs(s: string): (r: string)
    ensures |r| <= |s| && (|s| - |r|) % 2 == 0
  {
    if |s| < 2 then s
    else if s[0] != '\n' && s[1] == Backspace then RemovePairs(s[2..])
    else [s[0]] + RemovePairs(s[1..])
  }

  /** `s[i]` is a character the pattern deletes together with the backspace after it. */
  predicate ErasableAt(s: string, i: int)
    requires 0 <= i < |s| - 1
  {
    s[i] != '\n' && s[i + 1] == Backspace
  }

  /** No character of `s` is followed by a backspace that could delete it. */
  predicate Settled(s: string)
  {
    forall i :: 0 <= i < |s| - 1 ==> !ErasableAt(s, i)
  }

  /** A pass deletes nothing exactly when no pair is left to delete. */
  lemma {:induction false} RemovePairsKeepsLengthIffSettled(s: string)
    ensures |RemovePairs(s)| == |s| <==> Settled(s)
    ensures Settled(s) ==> RemovePairs(s) == s
  {
    if |s| >= 2 {
      if ErasableAt(s, 0) {
        assert !Settled(s);
      } else {
        RemovePairsKeepsLengthIffSettled(s[1..]);
        if Settled(s[1..]) {
          forall i | 0 <= i < |s| - 1 ensures !ErasableAt(s, i) {
            if i > 0 {
              assert ErasableAt(s, i) == ErasableAt(s[1..], i - 1);
            }
          }
        } else {
          var i :| 0 <= i < |s| - 2 && ErasableAt(s[1..], i);
          assert ErasableAt(s, i + 1);
        }
      }
    }
  }

  /** Number of newlines in `s`. */
  function Newlines(s: string): nat
  {
    if s == [] then 0 else (if s[0] == '\n' then 1 else 0) + Newlines(s[1..])
  }

  lemma {:induction false} NewlinesAppend(a: string, b: string)
    ensures Newlines(a + b) == Newlines(a) + Newlines(b)
  {
    if a != [] {
      assert (a + b)[1..] == a[1..] + b;
      NewlinesAppend(a[1..], b);
    } else {
      assert a + b == b;
    }
  }

  /** A pass never deletes a newline. */
  lemma {:induction false} RemovePairsKeepsNewlines(s: string)
    ensures Newlines(RemovePairs(s)) == Newlines(s)
  {
    if |s| >= 2 {
      if s[0] != '\n' && s[1] == Backspace {
        RemovePairsKeepsNewlines(s[2..]);
        assert s == [s[0], s[1]] + s[2..];
        NewlinesAppend([s[0], s[1]], s[2..]);
      } else {
        RemovePairsKeepsNewlines(s[1..]);
        NewlinesAppend([s[0]], RemovePairs(s[1..]));
      }
    }
  }

  /**
   * What `fixBackspace` returns: passes are repeated while the last one
   * made the string shorter; the first string a pass leaves as long as it
   * was is the result.
   */
  function FixedPoint(s: string): string
    decreases |s|
  {
    var t := RemovePairs(s);
    if |t| < |s| then FixedPoint(t) else s
  }

  /**
   * fixBackspace: the do-while loop reassigning `txt` and `tmp`. Every
   * repetition makes the string strictly shorter, so the loop ends.
   */
  method FixBackspace(input: string) returns (txt: string)
    ensures txt == FixedPoint(input)
    ensures Settled(txt)
    ensures |txt| <= |input| && (|input| - |txt|) % 2 == 0
    ensures Newlines(txt) == Newlines(input)
  {
    var tmp := input;
    txt := tmp;
    tmp := RemovePairs(txt);
    while |tmp| < |txt|
      invariant tmp == RemovePairs(txt)
      invariant FixedPoint(txt) == FixedPoint(input)
      invariant |txt| <= |input| && (|input| - |txt|) % 2 == 0
      invariant Newlines(txt) == Newlines(input)
      decreases |txt|
    {
      RemovePairsKeepsNewlines(txt);
      txt := tmp;
      tmp := RemovePairs(txt);
    }
    RemovePairsKeepsLengthIffSettled(txt);
  }

  /** The result has no character left that a following backspace deletes. */
  lemma {:induction false} FixedPointSettled(s: string)
    ensures Settled(FixedPoint(s))
    decreases |s|
  {
    RemovePairsKeepsLengthIffSettled(s);
    if |RemovePairs(s)| < |s| {
      FixedPointSettled(RemovePairs(s));
    }
  }

  /** Applying the fix twice is the same as applying it once. */
  lemma FixedPointIdempotent(s: string)
    ensures FixedPoint(FixedPoint(s)) == FixedPoint(s)
  {
    FixedPointSettled(s);
    RemovePairsKeepsLengthIffSettled(FixedPoint(s));
  }

  /** A string without any backspace is returned unchanged. */
  lemma NoBackspaceUnchanged(s: string)
    requires Backspace !in s
    ensures FixedPoint(s) == s
  {
    assert Settled(s) by {
      forall i | 0 <= i < |s| - 1 ensures !ErasableAt(s, i) {
        assert s[i + 1] in s;
      }
    }
    RemovePairsKeepsLengthIffSettled(s);
  }

  /** The fix only ever deletes whole pairs, and never a newline. */
  lemma {:induction false} FixedPointDeletesPairs(s: string)
    ensures |FixedPoint(s)| <= |s| && (|s| - |FixedPoint(s)|) % 2 == 0
    ensures Newlines(FixedPoint(s)) == Newlines(s)
    decreases |s|
  {
    var t := RemovePairs(s);
    RemovePairsKeepsNewlines(s);
    if |t| < |s| {
      FixedPointDeletesPairs(t);
      assert FixedPoint(s) == FixedPoint(t);
    }
  }

  /** A backspace deletes the character before it: "ab\bc" becomes "ac". */
  lemma ErasesPreviousCharacter()
    ensures FixedPoint("ab" + [Backspace] + "c") == "ac"
  {
    var s := "ab" + [Backspace] + "c";
    assert s[1..][2..] == "c";
    assert RemovePairs(s[1..]) == "c";
    assert RemovePairs(s) == "ac";
    assert RemovePairs("ac") == "a" + RemovePairs("c");
  }

  /** A backspace right after a newline is kept: "\n\b" is left as it is. */
  lemma KeepsBackspaceAfterNewline()
    ensures FixedPoint("\n" + [Backspace]) == "\n" + [Backspace]
  {
    assert RemovePairs("\n" + [Backspace]) == "\n" + [Backspace];
  }

  /**
   * A backspace counts as a character the next backspace may delete:
   * "\n\b\b" loses both backspaces, although the first follows a newline,
   * and "ab\b\b\b" keeps its "a".
   */
  lemma BackspaceErasesBackspace()
    ensures FixedPoint("\n" + [Backspace, Backspace]) == "\n"
    ensures FixedPoint("ab" + [Backspace, Backspace, Backspace]) == "a"
  {
    assert RemovePairs("\n" + [Backspace, Backspace]) == "\n";
    assert RemovePairs("\n") == "\n";
    var t := "ab" + [Backspace, Backspace, Backspace];
    assert t[1..][2..] == [Backspace, Backspace];
    assert t[1..][2..][2..] == [];
    assert RemovePairs(t[1..][2..]) == [];
    assert RemovePairs(t[1..]) == [];
    assert RemovePairs(t) == "a";
    assert RemovePairs("a") == "a";
    assert FixedPoint("a") == "a";
  }

  // ---------------------------------------------------------------------
  // createClass

  /** Foreground colours (colorMap). */
  const ColorMap: map<string, string> := map[
    "ansi-black" := "text-[var(--black)]",
    "ansi-red" := "text-[var(--red)]",
    "ansi-green" := "text-[var(--green)]",
    "ansi-yellow" := "text-[var(--brown)]",
    "ansi-blue" := "text-[var(--blue)]",
    "ansi-magenta" := "text-[var(--magenta)]",
    "ansi-cyan" := "text-[var(--cyan)]",
    "ansi-white" := "text-[var(--light-gray)]",
    "ansi-bright-black" := "text-[var(--dark-gray)]",
    "ansi-bright-red" := "text-[var(--light-red)]",
    "ansi-bright-green" := "text-[var(--light-green)]",
    "ansi-bright-yellow" := "text-[var(--yellow)]",
    "ansi-bright-blue" := "text-[var(--light-blue)]",
    "ansi-bright-magenta" := "text-[var(--light-magenta)]",
    "ansi-bright-cyan" := "text-[var(--light-cyan)]",
    "ansi-bright-white" := "text-[var(--white)]"
  ]

  /** Background colours (bgColorMap). */
  const BgColorMap: map<string, string> := map[
    "ansi-black" := "bg-transparent",
    "ansi-red" := "bg-[var(--red)]",
    "ansi-green" := "bg-[var(--green)]",
    "ansi-yellow" := "bg-[var(--brown)]",
    "ansi-blue" := "bg-[var(--blue)]",
    "ansi-magenta" := "bg-[var(--magenta)]",
    "ansi-cyan" := "bg-[var(--cyan)]",
    "ansi-white" := "bg-[var(--light-gray)]",
    "ansi-bright-black" := "bg-[var(--dark-gray)]",
    "ansi-bright-red" := "bg-[var(--light-red)]",
    "ansi-bright-green" := "bg-[var(--light-green)]",
    "ansi-bright-yellow" := "bg-[var(--yellow)]",
    "ansi-bright-blue" := "bg-[var(--light-blue)]",
    "ansi-bright-magenta" := "bg-[var(--light-magenta)]",
    "ansi-bright-cyan" := "bg-[var(--light-cyan)]",
    "ansi-bright-white" := "bg-[var(--white)]"
  ]

  /** Text decorations (decorationMap). */
  const DecorationMap: map<string, string> := map[
    "bold" := "font-bold",
    "dim" := "opacity-50",
    "italic" := "italic",
    "hidden" := "invisible",
    "strikethrough" := "line-through",
    "underline" := "underline",
    "blink" := "animate-pulse"
  ]

  /** The fields of one parsed ANSI span that select its classes; None when absent. */
  datatype Bundle = Bundle(bg: Option<string>, fg: Option<string>, decoration: Option<string>)

  /** The class a table gives `key`, as a list of zero or one names. */
  function Lookup(table: map<string, string>, key: Option<string>): (found: seq<string>)
    ensures |found| <= 1
    ensures found != [] ==> found[0] in table.Values
  {
    if key.Some? && key.value in table then [table[key.value]] else []
  }

  /** The classes of a span, background first, then foreground, then decoration. */
  function Classes(bundle: Bundle): (classes: seq<string>)
    ensures |classes| <= 3
  {
    Lookup(BgColorMap, bundle.bg) + Lookup(ColorMap, bundle.fg) + Lookup(DecorationMap, bundle.decoration)
  }

  /** `parts.join(" ")`. */
  function Join(parts: seq<string>): string
  {
    if |parts| == 0 then ""
    else if |parts| == 1 then parts[0]
    else parts[0] + " " + Join(parts[1..])
  }

  /** `s.split(" ")`: the pieces between single spaces, empty ones included. */
  function Split(s: string): (pieces: seq<string>)
    ensures |pieces| >= 1
  {
    if s == [] then [""]
    else
      var rest := Split(s[1..]);
      if s[0] == ' ' then [""] + rest
      else [[s[0]] + rest[0]] + rest[1..]
  }

  /** A class name as Tailwind writes it: non-empty, without spaces. */
  predicate ClassName(c: string)
  {
    c != [] && ' ' !in c
  }

  /**
   * createClass: pushes the background, foreground and decoration classes
   * that the tables know, in that order, and joins them with spaces; null
   * when there is none.
   */
  method CreateClass(bundle: Bundle) returns (r: Option<string>)
    ensures r.None? <==> Classes(bundle) == []
    ensures r.Some? ==> r.value == Join(Classes(bundle))
  {
    var classes: seq<string> := [];
    if bundle.bg.Some? && bundle.bg.value in BgColorMap {
      classes := classes + [BgColorMap[bundle.bg.value]];
    }
    assert classes == Lookup(BgColorMap, bundle.bg);
    if bundle.fg.Some? && bundle.fg.value in ColorMap {
      classes := classes + [ColorMap[bundle.fg.value]];
    }
    assert classes == Lookup(BgColorMap, bundle.bg) + Lookup(ColorMap, bundle.fg);
    if bundle.decoration.Some? && bundle.decoration.value in DecorationMap {
      classes := classes + [DecorationMap[bundle.decoration.value]];
    }
    assert classes == Classes(bundle);
    if |classes| > 0 {
      r := Some(Join(classes));
    } else {
      r := None;
    }
  }

  /** The result is null exactly when none of the three keys is in its table. */
  lemma NoClassIffNoKnownKey(bundle: Bundle)
    ensures Classes(bundle) == [] <==>
      !(bundle.bg.Some? && bundle.bg.value in BgColorMap) &&
      !(bundle.fg.Some? && bundle.fg.value in ColorMap) &&
      !(bundle.decoration.Some? && bundle.decoration.value in DecorationMap)
  {
  }

  /** Splitting a word followed by more text: the word opens the first piece. */
  lemma {:induction false} SplitAfterWord(w: string, t: string)
    requires ' ' !in w
    ensures Split(w + t) == [w + Split(t)[0]] + Split(t)[1..]
  {
    if w != [] {
      assert (w + t)[1..] == w[1..] + t;
      assert w[0] in w;
      assert forall c :: c in w[1..] ==> c in w;
      SplitAfterWord(w[1..], t);
      assert [w[0]] + (w[1..] + Split(t)[0]) == w + Split(t)[0];
    } else {
      assert w + t == t;
      assert w + Split(t)[0] == Split(t)[0];
      assert Split(t) == [Split(t)[0]] + Split(t)[1..];
    }
  }

  /** Joining space-free names with spaces and splitting again gives the names back. */
  lemma {:induction false} SplitJoin(parts: seq<string>)
    requires |parts| >= 1
    requires forall k :: 0 <= k < |parts| ==> ' ' !in parts[k]
    ensures Split(Join(parts)) == parts
  {
    if |parts| == 1 {
      SplitAfterWord(parts[0], "");
      assert parts[0] + "" == parts[0];
    } else {
      SplitJoin(parts[1..]);
      var t := Join(parts[1..]);
      assert parts[0] + " " + t == parts[0] + (" " + t);
      SplitAfterWord(parts[0], " " + t);
      assert (" " + t)[1..] == t;
      assert parts[0] + "" == parts[0];
      assert parts == [parts[0]] + parts[1..];
    }
  }

  /** Every background class is a single space-free name. */
  lemma BgColorClassNames()
    ensures forall v | v in BgColorMap.Values :: ClassName(v)
  {
    forall v | v in BgColorMap.Values
      ensures ClassName(v)
    {
      var k :| k in BgColorMap && BgColorMap[k] == v;
    }
  }

  /** Every foreground class is a single space-free name. */
  lemma ColorClassNames()
    ensures forall v | v in ColorMap.Values :: ClassName(v)
  {
    forall v | v in ColorMap.Values
      ensures ClassName(v)
    {
      var k :| k in ColorMap && ColorMap[k] == v;
    }
  }

  /** Every decoration class is a single space-free name. */
  lemma DecorationClassNames()
    ensures forall v | v in DecorationMap.Values :: ClassName(v)
  {
    forall v | v in DecorationMap.Values
      ensures ClassName(v)
    {
      var k :| k in DecorationMap && DecorationMap[k] == v;
    }
  }

  /**
   * The class string lists the span's classes in the order background,
   * foreground, decoration, separated by single spaces.
   */
  lemma ClassStringSplitsIntoClasses(bundle: Bundle)
    requires Classes(bundle) != []
    ensures Split(Join(Classes(bundle))) == Classes(bundle)
    ensures forall k :: 0 <= k < |Classes(bundle)| ==> ClassName(Classes(bundle)[k])
  {
    BgColorClassNames();
    ColorClassNames();
    DecorationClassNames();
    var cs := Classes(bundle);
    assert forall k :: 0 <= k < |cs| ==>
      cs[k] in BgColorMap.Values || cs[k] in ColorMap.Values || cs[k] in DecorationMap.Values;
    SplitJoin(cs);
  }

  /**
   * A known background and decoration around an unknown foreground: the
   * unknown key is skipped and the other two keep their order.
   */
  lemma UnknownKeySkipped()
    ensures Join(Classes(Bundle(Some("ansi-red"), Some("ansi-orange"), Some("bold")))) ==
      "bg-[var(--red)] font-bold"
  {
    assert "ansi-orange" !in ColorMap;
    assert Classes(Bundle(Some("ansi-red"), Some("ansi-orange"), Some("bold"))) ==
      ["bg-[var(--red)]", "font-bold"];
  }

  /**
   * The two colour tables disagree on black (a transparent background, a
   * black foreground) and both render yellow with the brown variable.
   */
  lemma BlackAndYellowEntries()
    ensures BgColorMap["ansi-black"] == "bg-transparent"
    ensures ColorMap["ansi-black"] == "text-[var(--black)]"
    ensures BgColorMap["ansi-yellow"] == "bg-[var(--brown)]"
    ensures ColorMap["ansi-yellow"] == "text-[var(--brown)]"
  {
  }
}
