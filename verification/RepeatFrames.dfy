/** What bd_repeat.cpp reads from the bytes of a FANET frame. */
module RepeatFrames {
  import opened Words
  import opened RepeatBook
  import opened RepeatAccounts

  const FORWARD_BIT := 0x40
  const EXTENDED_BIT := 0x80

  /** The head of a frame: type and two marks, manufacturer, and the address, low byte first. */
  function Head(sender: Sender, typ: nat, forward: bool, extended: bool): (b: seq<Byte>)
    requires sender.vid < 0x100 && sender.addr < 0x1_0000 && typ < 0x40
    ensures |b| == 4
  {
    [typ + (if forward then FORWARD_BIT else 0) + (if extended then EXTENDED_BIT else 0),
     sender.vid, sender.addr % 0x100, sender.addr / 0x100]
  }

  /** Sender, type and marks of every frame are read back from its head; positions, names, weather, ground positions and
   *  hardware information are tracked. */
  lemma HeadRoundTrip(sender: Sender, typ: nat, forward: bool, extended: bool, rest: seq<Byte>, h: Heard)
    requires sender.vid < 0x100 && sender.addr < 0x1_0000 && typ < 0x40
    requires h.frame == Head(sender, typ, forward, extended) + rest
    ensures KeyOf(h) == Key(sender, typ, h.crc) && Forward(h.frame) == forward
    ensures IsName(h.frame) <==> typ == 2 && !extended
    ensures Counts(h.frame) <==> typ in {1, 2, 4, 7, 10}
    ensures h.frame[4..] == rest
  {
  }

  predicate Printable(c: Byte) {
    ' ' as int <= c <= '~' as int
  }

  /** A name is the longest printable start of the text that has at most twenty characters. */
  lemma {:induction false} NameMeaning(text: seq<Byte>, i: nat)
    requires i <= NAME_LEN
    ensures var name := NameOf(text, i);
      && |name| <= |text| && name == text[..|name|] && (forall k :: 0 <= k < |name| ==> Printable(text[k]))
      && i + |name| <= NAME_LEN
      && (|name| == |text| || i + |name| == NAME_LEN || !Printable(text[|name|]))
    decreases |text|
  {
    if text != [] && i < NAME_LEN && Printable(text[0]) {
      NameMeaning(text[1..], i + 1);
      var rest := NameOf(text[1..], i + 1);
      assert NameOf(text, i) == [text[0]] + rest;
      assert text[..1 + |rest|] == [text[0]] + text[1..][..|rest|];
      assert forall k :: 1 <= k < 1 + |rest| ==> text[k] == text[1..][k - 1];
    }
  }
}
