/**
  The palette of src/App.tsx: the text built for a sampled pixel, the pure
  update `handleSelectColor` hands to `setSelectedColors`, and the session
  state that handler changes (the palette, the error flag, the notification
  message and the text handed to the clipboard).
 */
module Palette {
  import opened Wrappers
  import opened Decimal

  /** One element of `SelectedColorsProps`. */
  datatype Entry = Entry(rgb: string, isSelected: bool)

  /** The text `handleGetColor` builds from a pixel's red, green and blue bytes. */
  function PixelString(r: int, g: int, b: int): string {
    "rgb(" + IntToString(r) + ", " + IntToString(g) + ", " + IntToString(b) + ")"
  }

  /** The pixel text is the call form "rgb(r, g, b)" of the three bytes. */
  lemma PixelStringIsCall(r: int, g: int, b: int)
    ensures PixelString(r, g, b) == Call("rgb", [r, g, b])
  {
    assert "rgb" + "(" == "rgb(";
    CallOfThree("rgb", r, g, b);
  }

  /** The pixel text reads back as the three bytes it was built from. */
  lemma PixelStringReadsBack(r: int, g: int, b: int)
    requires r >= 0 && g >= 0 && b >= 0
    ensures ParseCall("rgb", PixelString(r, g, b)) == Some([r, g, b])
  {
    PixelStringIsCall(r, g, b);
    assert NonNegative([r, g, b]);
    ParseCallRoundTrip("rgb", [r, g, b]);
  }

  /**
    Two pixels give the same text only when their bytes are equal, so
    deduplicating the palette by text is deduplicating it by colour.
   */
  lemma PixelStringInjective(r: int, g: int, b: int, r': int, g': int, b': int)
    requires r >= 0 && g >= 0 && b >= 0 && r' >= 0 && g' >= 0 && b' >= 0
    ensures PixelString(r, g, b) == PixelString(r', g', b') <==> (r, g, b) == (r', g', b')
  {
    PixelStringIsCall(r, g, b);
    PixelStringIsCall(r', g', b');
    assert NonNegative([r, g, b]) && NonNegative([r', g', b']);
    CallInjective("rgb", [r, g, b], [r', g', b']);
    if PixelString(r, g, b) == PixelString(r', g', b') {
      assert [r, g, b] == [r', g', b'];
      assert r == [r, g, b][0] && g == [r, g, b][1] && b == [r, g, b][2];
    }
  }

  /** `selectedColors.some(c => c.rgb === rgb)`. */
  predicate IsAlreadySelected(p: seq<Entry>, rgb: string) {
    exists i :: 0 <= i < |p| && p[i].rgb == rgb
  }

  /** `selectedColors.map(color => ({...color, isSelected: false}))`. */
  function Deselected(p: seq<Entry>): seq<Entry> {
    seq(|p|, i requires 0 <= i < |p| => p[i].(isSelected := false))
  }

  /** The palette after a click on `rgb`: unchanged for a duplicate, else every entry cleared and `rgb` appended selected. */
  function AfterSelect(p: seq<Entry>, rgb: string): seq<Entry> {
    if IsAlreadySelected(p, rgb) then p else Deselected(p) + [Entry(rgb, true)]
  }

  /** No two entries carry the same colour text. */
  predicate DistinctColors(p: seq<Entry>) {
    forall i, j :: 0 <= i < j < |p| ==> p[i].rgb != p[j].rgb
  }

  /** At most one entry is marked selected. */
  predicate AtMostOneSelected(p: seq<Entry>) {
    forall i, j :: 0 <= i < j < |p| && p[i].isSelected ==> !p[j].isSelected
  }

  /** Selecting a colour already in the palette changes nothing, not even a selection flag. */
  lemma SelectDuplicateUnchanged(p: seq<Entry>, rgb: string)
    requires IsAlreadySelected(p, rgb)
    ensures AfterSelect(p, rgb) == p
  {
  }

  /**
    Selecting a new colour appends it, selected, at the end; every earlier
    entry keeps its colour and position and is no longer selected.
   */
  lemma SelectNewAppends(p: seq<Entry>, rgb: string)
    requires !IsAlreadySelected(p, rgb)
    ensures
      var q := AfterSelect(p, rgb);
      && |q| == |p| + 1
      && q[|p|] == Entry(rgb, true)
      && forall i :: 0 <= i < |p| ==> q[i].rgb == p[i].rgb && !q[i].isSelected
  {
  }

  /** After selecting a new colour exactly one entry is selected: the last one. */
  lemma SelectNewSelectsOnlyLast(p: seq<Entry>, rgb: string)
    requires !IsAlreadySelected(p, rgb)
    ensures
      var q := AfterSelect(p, rgb);
      forall i :: 0 <= i < |q| ==> (q[i].isSelected <==> i == |q| - 1)
  {
  }

  /** Whatever was clicked is in the palette afterwards. */
  lemma SelectedColorIsPresent(p: seq<Entry>, rgb: string)
    ensures IsAlreadySelected(AfterSelect(p, rgb), rgb)
  {
    if !IsAlreadySelected(p, rgb) {
      var q := AfterSelect(p, rgb);
      assert q[|p|].rgb == rgb;
    }
  }

  /** A select keeps the palette free of duplicate colours and with at most one selected entry. */
  lemma SelectKeepsInvariant(p: seq<Entry>, rgb: string)
    requires DistinctColors(p) && AtMostOneSelected(p)
    ensures DistinctColors(AfterSelect(p, rgb)) && AtMostOneSelected(AfterSelect(p, rgb))
  {
    if !IsAlreadySelected(p, rgb) {
      var q := AfterSelect(p, rgb);
      forall i, j | 0 <= i < j < |q|
        ensures q[i].rgb != q[j].rgb
      {
        if j == |p| {
          assert p[i].rgb != rgb;
        } else {
          assert q[i].rgb == p[i].rgb && q[j].rgb == p[j].rgb;
        }
      }
    }
  }

  /** Clicking the same colour twice is the same as clicking it once. */
  lemma SelectIdempotent(p: seq<Entry>, rgb: string)
    ensures AfterSelect(AfterSelect(p, rgb), rgb) == AfterSelect(p, rgb)
  {
    SelectedColorIsPresent(p, rgb);
  }

  /** The notification `handleCopyColor` sets for the text it copies. */
  function CopiedMessage(color: string): string {
    color + " copied to clipboard!"
  }

  /** The notification for a colour that is already in the palette. */
  function DuplicateMessage(rgb: string): string {
    "Color already selected! " + rgb + " copied to clipboard"
  }

  /**
    The state of one picking session. `copied` lists, oldest first, every
    text handed to the clipboard write; the write itself and the
    notification timer are outside the model.
   */
  class Session {
    var rgb: string
    var selectedColors: seq<Entry>
    var notificationMsg: string
    var isError: bool
    var copied: seq<string>

    /** The palette never holds a colour twice and has at most one selected entry. */
    ghost predicate Valid()
      reads this
    {
      DistinctColors(selectedColors) && AtMostOneSelected(selectedColors)
    }

    /** The initial state of every `useState` the handler touches. */
    constructor ()
      ensures Valid()
      ensures rgb == "" && selectedColors == [] && notificationMsg == "" && !isError && copied == []
    {
      rgb := "";
      selectedColors := [];
      notificationMsg := "";
      isError := false;
      copied := [];
    }

    /** `handleGetColor`'s state update when the pointer is over the pixel (r, g, b). */
    method SampleColor(r: int, g: int, b: int)
      modifies this`rgb
      ensures rgb == PixelString(r, g, b)
    {
      rgb := PixelString(r, g, b);
    }

    /** `handleClearColor`: the pointer left the image, so no colour is under it. */
    method ClearColor()
      modifies this`rgb
      ensures rgb == ""
    {
      rgb := "";
    }

    /** `handleCopyColor`: announces the copy and hands `color` to the clipboard. */
    method CopyColor(color: string)
      modifies this`notificationMsg, this`copied
      ensures notificationMsg == CopiedMessage(color)
      ensures copied == old(copied) + [color]
    {
      notificationMsg := CopiedMessage(color);
      copied := copied + [color];
    }

    /**
      `handleSelectColor`: copies the current colour; a duplicate only sets
      the error flag and the duplicate message, anything else clears the
      error flag and appends the colour as the one selected entry.
     */
    method SelectColor()
      requires Valid()
      modifies this
      ensures Valid()
      ensures rgb == old(rgb)
      ensures copied == old(copied) + [rgb]
      ensures isError == IsAlreadySelected(old(selectedColors), rgb)
      ensures selectedColors == AfterSelect(old(selectedColors), rgb)
      ensures notificationMsg == if isError then DuplicateMessage(rgb) else CopiedMessage(rgb)
    {
      CopyColor(rgb);
      var isColorAlreadySelected := IsAlreadySelected(selectedColors, rgb);
      SelectKeepsInvariant(selectedColors, rgb);
      if isColorAlreadySelected {
        notificationMsg := DuplicateMessage(rgb);
        isError := true;
      }
      if !isColorAlreadySelected {
        isError := false;
        selectedColors := Deselected(selectedColors) + [Entry(rgb, true)];
      }
    }
  }
}
