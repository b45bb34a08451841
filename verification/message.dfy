/** Chat messages as the page receives them from the chat hook, and the text
    the page renders for each of them. */
module Message {
  import opened Text

  datatype Option<T> = None | Some(value: T)

  datatype Role = System | User | Assistant

  /** One content segment: its `type` tag and its optional `text`. Segments
      of other types (reasoning, tool calls, files, ...) carry a different tag
      and may have no text at all. */
  datatype Part = Part(kind: string, text: Option<string>)

  datatype Msg = Msg(id: string, role: Role, parts: seq<Part>)

  const TextKind: string := "text"

  /** The filter of `getMessageText`: the type is "text" and the text is
      truthy, i.e. present and non-empty. */
  predicate Shown(p: Part) {
    p.kind == TextKind && p.text.Some? && p.text.value != []
  }

  /** What `join("")` writes for a part's `text`: an absent value is written
      as the empty string. */
  function JoinValue(p: Part): (r: string)
    ensures p.text == None ==> r == []
    ensures Shown(p) ==> r == Contribution(p) && r != []
  {
    match p.text
    case Some(t) => t
    case None => []
  }

  /** `parts.filter(...)`: the shown parts, in their original order. The
      ensures give membership; multiplicity is `ShownPartsSubMultiset`, and
      order follows from `ShownPartsAppend` and `ShownPartsFixed`. */
  function ShownParts(parts: seq<Part>): (r: seq<Part>)
    ensures |r| <= |parts|
    ensures forall i :: 0 <= i < |r| ==> Shown(r[i])
    ensures forall p :: p in r ==> p in parts
    ensures forall i :: 0 <= i < |parts| && Shown(parts[i]) ==> parts[i] in r
  {
    if parts == [] then []
    else (if Shown(parts[0]) then [parts[0]] else []) + ShownParts(parts[1..])
  }

  /** The filter never duplicates a part: each part occurs in the result at
      most as often as in the input. */
  lemma {:induction false} ShownPartsSubMultiset(parts: seq<Part>)
    ensures multiset(ShownParts(parts)) <= multiset(parts)
    decreases |parts|
  {
    if parts != [] {
      assert parts == [parts[0]] + parts[1..];
      ShownPartsSubMultiset(parts[1..]);
    }
  }

  /** `.map((part) => part.text)`. */
  function Texts(parts: seq<Part>): (r: seq<string>)
    ensures |r| == |parts|
    ensures forall i :: 0 <= i < |parts| && Shown(parts[i]) ==> r[i] == Contribution(parts[i]) && r[i] != []
  {
    seq(|parts|, i requires 0 <= i < |parts| => JoinValue(parts[i]))
  }

  /** `getMessageText`: the display text of a message. It is empty exactly
      when no part passes the filter. */
  function GetMessageText(parts: seq<Part>): (r: string)
    ensures r == [] <==> forall i :: 0 <= i < |parts| ==> !Shown(parts[i])
  {
    ShownTextsNonEmpty(parts);
    Concat(Texts(ShownParts(parts)))
  }

  lemma ShownTextsNonEmpty(parts: seq<Part>)
    ensures forall i :: 0 <= i < |Texts(ShownParts(parts))| ==> Texts(ShownParts(parts))[i] != []
    ensures ShownParts(parts) == [] <==> forall i :: 0 <= i < |parts| ==> !Shown(parts[i])
  {
    var shown := ShownParts(parts);
    forall i | 0 <= i < |shown| ensures Texts(shown)[i] != [] {
      assert Shown(shown[i]);
    }
    if shown != [] {
      assert shown[0] in parts;
    }
  }

  /** What one part adds to the display text. */
  function Contribution(p: Part): string {
    if Shown(p) then p.text.value else []
  }

  /** Reference definition of the display text, built from the last part
      backwards: everything before it, then its own contribution. */
  function RenderedText(parts: seq<Part>): string {
    if parts == [] then [] else RenderedText(parts[..|parts| - 1]) + Contribution(parts[|parts| - 1])
  }

  lemma {:induction false} ShownPartsAppend(a: seq<Part>, b: seq<Part>)
    ensures ShownParts(a + b) == ShownParts(a) + ShownParts(b)
    decreases |a|
  {
    if a == [] {
      assert a + b == b;
    } else {
      assert (a + b)[1..] == a[1..] + b;
      ShownPartsAppend(a[1..], b);
    }
  }

  /** The display text of two part lists one after the other is the two
      display texts one after the other. */
  lemma GetMessageTextAppend(a: seq<Part>, b: seq<Part>)
    ensures GetMessageText(a + b) == GetMessageText(a) + GetMessageText(b)
  {
    var sa, sb := ShownParts(a), ShownParts(b);
    ShownPartsAppend(a, b);
    TextsAppend(sa, sb);
    ConcatAppend(Texts(sa), Texts(sb));
    assert GetMessageText(a + b) == Concat(Texts(sa + sb));
  }

  lemma TextsAppend(a: seq<Part>, b: seq<Part>)
    ensures Texts(a + b) == Texts(a) + Texts(b)
  {
    var l, r := Texts(a + b), Texts(a) + Texts(b);
    assert |l| == |r|;
    forall i | 0 <= i < |l| ensures l[i] == r[i] {
      if i < |a| { assert (a + b)[i] == a[i]; } else { assert (a + b)[i] == b[i - |a|]; }
    }
  }

  lemma GetMessageTextSingle(p: Part)
    ensures GetMessageText([p]) == Contribution(p)
  {
    if Shown(p) {
      assert ShownParts([p]) == [p] + ShownParts([]);
      assert Texts([p]) == [p.text.value];
      assert Concat([p.text.value]) == p.text.value + Concat([]);
    } else {
      assert ShownParts([p]) == ShownParts([]);
    }
  }

  /** `getMessageText` agrees with the reference definition on every list. */
  lemma {:induction false} GetMessageTextIsRenderedText(parts: seq<Part>)
    ensures GetMessageText(parts) == RenderedText(parts)
    decreases |parts|
  {
    if parts != [] {
      var init := parts[..|parts| - 1];
      var last := parts[|parts| - 1];
      assert parts == init + [last];
      GetMessageTextAppend(init, [last]);
      GetMessageTextSingle(last);
      GetMessageTextIsRenderedText(init);
    }
  }

  /** Parts that fail the filter can be dropped without changing the text. */
  lemma GetMessageTextIgnoresHidden(parts: seq<Part>)
    ensures GetMessageText(ShownParts(parts)) == GetMessageText(parts)
  {
    ShownPartsFixed(ShownParts(parts));
  }

  lemma {:induction false} ShownPartsFixed(parts: seq<Part>)
    requires forall i :: 0 <= i < |parts| ==> Shown(parts[i])
    ensures ShownParts(parts) == parts
    decreases |parts|
  {
    if parts != [] {
      ShownPartsFixed(parts[1..]);
      assert parts == [parts[0]] + parts[1..];
    }
  }

  lemma HelloLiteral()
    ensures "Hel" + ("lo, " + "world") == "Hello, world"
  {
    var s := "Hel" + ("lo, " + "world");
    assert forall i :: 0 <= i < 12 ==> s[i] == "Hello, world"[i];
  }

  lemma {:induction false} GetMessageTextThree(p1: Part, p2: Part, p3: Part)
    ensures GetMessageText([p1, p2, p3]) == Contribution(p1) + (Contribution(p2) + Contribution(p3))
  {
    assert [p1, p2, p3] == [p1] + ([p2] + [p3]);
    GetMessageTextAppend([p1], [p2] + [p3]);
    GetMessageTextAppend([p2], [p3]);
    GetMessageTextSingle(p1);
    GetMessageTextSingle(p2);
    GetMessageTextSingle(p3);
  }

  lemma {:induction false} GetMessageTextTwo(p1: Part, p2: Part)
    ensures GetMessageText([p1, p2]) == Contribution(p1) + Contribution(p2)
  {
    assert [p1, p2] == [p1] + [p2];
    GetMessageTextAppend([p1], [p2]);
    GetMessageTextSingle(p1);
    GetMessageTextSingle(p2);
  }

  /** Three streamed text segments read as one sentence. */
  lemma HelloWorld()
    ensures GetMessageText([Part(TextKind, Some("Hel")), Part(TextKind, Some("lo, ")), Part(TextKind, Some("world"))])
            == "Hello, world"
  {
    var p1, p2, p3 := Part(TextKind, Some("Hel")), Part(TextKind, Some("lo, ")), Part(TextKind, Some("world"));
    GetMessageTextThree(p1, p2, p3);
    assert Contribution(p1) == "Hel" && Contribution(p2) == "lo, " && Contribution(p3) == "world";
    HelloLiteral();
  }

  /** A part of another type (say, reasoning), a text part without text and
      an empty text part add nothing to the display text. */
  lemma HiddenPartsAddNothing(other: string, a: string, b: string)
    requires other != TextKind
    ensures GetMessageText([Part(other, Some(a)), Part(TextKind, Some(a)), Part(TextKind, None),
                            Part(TextKind, Some([])), Part(TextKind, Some(b))])
            == a + b
  {
    var h, l := Part(TextKind, Some(a)), Part(TextKind, Some(b));
    HiddenAround(Part(other, Some(a)), h, Part(TextKind, None), Part(TextKind, Some([])), l);
    assert Contribution(h) == a && Contribution(l) == b;
  }

  lemma {:induction false} HiddenAround(q1: Part, h: Part, q2: Part, q3: Part, l: Part)
    requires !Shown(q1) && !Shown(q2) && !Shown(q3)
    ensures GetMessageText([q1, h, q2, q3, l]) == Contribution(h) + Contribution(l)
  {
    var front, back := [q1, h, q2], [q3, l];
    assert GetMessageText(front) == Contribution(h) by {
      GetMessageTextThree(q1, h, q2);
      assert [] + (Contribution(h) + []) == Contribution(h);
    }
    assert GetMessageText(back) == Contribution(l) by {
      GetMessageTextTwo(q3, l);
      assert [] + Contribution(l) == Contribution(l);
    }
    assert [q1, h, q2, q3, l] == front + back;
    GetMessageTextAppend(front, back);
  }
}
