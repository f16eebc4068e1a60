/**
 * The records of the browser (src/types.rs): an entry of a listing, the
 * rendering configuration, and the directory record with its cursor moves
 * and its row composer.
 *
 * The directory record is a class, because the source moves its cursor in
 * place; `Snapshot` is the value of its four fields, on which the pure parts
 * (row composition, scroll window, stack invariants) are stated.
 * Names are treated as sequences of single-width characters, so a name's
 * length is both its byte length and its formatting width.
 */
module Types {

  datatype Option<T> = None | Some(value: T)

  /** Rendering configuration; `maxPathLength` is carried but never read. */
  datatype Config = Config(maxPathLength: nat, maxDirectoryDepth: nat, nRows: nat, maxColWidth: nat)

  /** One child of a directory. */
  datatype Entry = Entry(name: string, isDir: bool, isHidden: bool)

  /** The terminal style a row is printed with (`reset`, `red`, `green`, `cyan`). */
  datatype Style = Reset | Red | Green | Cyan

  /** One composed row of a pane: its characters and its style. */
  datatype StyledRow = StyledRow(text: string, style: Style)

  function Min(a: nat, b: nat): nat { if a < b then a else b }

  /** The length of the longest name in a non-empty listing (`max_by_key` then `unwrap`). */
  function LongestNameLen(contents: seq<Entry>): (n: nat)
    requires |contents| > 0
  {
    if |contents| == 1 then |contents[0].name|
    else
      var rest := LongestNameLen(contents[1..]);
      if |contents[0].name| > rest then |contents[0].name| else rest
  }

  /** The longest name length bounds every name in the listing and is the length of one of them. */
  lemma {:induction false} LongestNameLenIsMax(contents: seq<Entry>)
    requires |contents| > 0
    ensures forall i :: 0 <= i < |contents| ==> |contents[i].name| <= LongestNameLen(contents)
    ensures exists i :: 0 <= i < |contents| && |contents[i].name| == LongestNameLen(contents)
  {
    if |contents| > 1 {
      var rest := contents[1..];
      LongestNameLenIsMax(rest);
      var w :| 0 <= w < |rest| && |rest[w].name| == LongestNameLen(rest);
      assert contents[w + 1] == rest[w];
      if |contents[0].name| <= LongestNameLen(rest) {
        assert 0 <= w + 1 < |contents| && |contents[w + 1].name| == LongestNameLen(contents);
      } else {
        assert |contents[0].name| == LongestNameLen(contents);
      }
      forall i | 1 <= i < |contents|
        ensures |contents[i].name| <= LongestNameLen(contents)
      {
        assert contents[i] == rest[i - 1];
      }
    } else {
      assert |contents[0].name| == LongestNameLen(contents);
    }
  }

  /**
   * Left-aligned formatting to a minimum width (`{:<w$}`, or `{:-<w$}` with
   * fill '-'): the text is kept whole and filled on the right up to `width`.
   */
  function PadRight(s: string, width: nat, fill: char): (r: string)
    ensures |r| == if |s| < width then width else |s|
  {
    if |s| < width then s + seq(width - |s|, _ => fill) else s
  }

  /** The padded text starts with `s` and continues with `fill` only. */
  lemma PadRightLayout(s: string, width: nat, fill: char)
    ensures PadRight(s, width, fill)[..|s|] == s
    ensures forall k :: |s| <= k < |PadRight(s, width, fill)| ==> PadRight(s, width, fill)[k] == fill
  {
  }

  /**
   * The seven characters after a row's name column: a four-character
   * truncation part and a three-character cursor part.
   */
  function Marker(truncated: bool, cursor: bool): (m: string)
    ensures |m| == 7
  {
    if cursor then (if truncated then "...-" else "----") + "-->"
    else (if truncated then "... " else "    ") + "   "
  }

  /** Reads back which case a marker encodes; `None` for anything that is not a marker. */
  function ReadMarker(m: string): Option<(bool, bool)>
  {
    if |m| != 7 then None
    else if m[4..] == "-->" && (m[..4] == "...-" || m[..4] == "----") then Some((m[..3] == "...", true))
    else if m[4..] == "   " && (m[..4] == "... " || m[..4] == "    ") then Some((m[..3] == "...", false))
    else None
  }

  /** The four markers are pairwise distinct: each (truncated, cursor) case is told apart. */
  lemma MarkerRoundTrip(truncated: bool, cursor: bool)
    ensures ReadMarker(Marker(truncated, cursor)) == Some((truncated, cursor))
  {
    var m := Marker(truncated, cursor);
    var head := m[..4];
    assert m[..3] == head[..3];
    if truncated {
      assert head[..3] == "...";
    } else {
      assert head[0] == ' ' || head[0] == '-';
      assert head[..3] != "...";
    }
  }

  /** The value of a directory record: its name, listing, cursor and longest name length. */
  datatype Snapshot = Snapshot(name: string, contents: seq<Entry>, selectedIdx: nat, longestNameLen: nat)
  {
    /**
     * What holds of every record the program builds and keeps: a non-empty
     * listing, a cursor at most one past the last entry, and the longest name
     * length computed from the listing.
     */
    predicate WellFormed()
    {
      |contents| > 0 && selectedIdx <= |contents| && longestNameLen == LongestNameLen(contents)
    }

    /** The record after `select_next`. */
    function Next(): (d: Snapshot)
      ensures d.name == name && d.contents == contents && d.longestNameLen == longestNameLen
      ensures selectedIdx <= |contents| ==> d.selectedIdx <= |contents|
      ensures WellFormed() ==> d.WellFormed()
    {
      if selectedIdx < |contents| then this.(selectedIdx := selectedIdx + 1) else this
    }

    /** The record after `select_prev`. */
    function Prev(): (d: Snapshot)
      ensures d.name == name && d.contents == contents && d.longestNameLen == longestNameLen
      ensures d.selectedIdx <= selectedIdx
      ensures WellFormed() ==> d.WellFormed()
    {
      if selectedIdx > 0 then this.(selectedIdx := selectedIdx - 1) else this
    }

    /** Width of the name column: the longest name, capped at `maxColWidth`. */
    function PadSize(config: Config): nat
    {
      Min(config.maxColWidth, longestNameLen)
    }

    /**
     * `get_padded_entry_repr`: the row for entry `idx`. A name longer than
     * `maxColWidth` is cut to `maxColWidth` characters and marked "..."; the
     * name column is filled with '-' on the cursor row of a non-tail pane and
     * with spaces otherwise; past the end of the listing the row is blank.
     */
    function PaddedEntryRepr(idx: nat, isTail: bool, config: Config): (r: StyledRow)
      ensures WellFormed() ==> |r.text| == PadSize(config) + 7
    {
      var padSize := PadSize(config);
      assert WellFormed() ==> forall i :: 0 <= i < |contents| ==> |contents[i].name| <= longestNameLen by {
        if WellFormed() { LongestNameLenIsMax(contents); }
      }
      if idx >= |contents| then
        StyledRow(PadRight("", padSize, ' ') + "       ", Reset)
      else
        var entry := contents[idx];
        var truncated := config.maxColWidth < |entry.name|;
        var nameLen := if truncated then config.maxColWidth else |entry.name|;
        var cursor := idx == selectedIdx && !isTail;
        var text := PadRight(entry.name[..nameLen], padSize, if cursor then '-' else ' ')
                    + Marker(truncated, cursor);
        var style :=
          if isTail && idx == selectedIdx then Red
          else if idx == selectedIdx then Green
          else if entry.isDir then Cyan
          else Reset;
        StyledRow(text, style)
    }
  }

  /** Repeated `select_next` from `d`. */
  function NextN(d: Snapshot, n: nat): Snapshot
  {
    if n == 0 then d else NextN(d, n - 1).Next()
  }

  /** Repeated `select_prev` from `d`. */
  function PrevN(d: Snapshot, n: nat): Snapshot
  {
    if n == 0 then d else PrevN(d, n - 1).Prev()
  }

  /**
   * Pressing Down `n` times moves the cursor `n` places but never past one
   * beyond the last entry, where it then stays; nothing else changes.
   */
  lemma {:induction false} NextNClamps(d: Snapshot, n: nat)
    requires d.selectedIdx <= |d.contents|
    ensures NextN(d, n) == d.(selectedIdx := Min(|d.contents|, d.selectedIdx + n))
  {
    if n > 0 {
      NextNClamps(d, n - 1);
    }
  }

  /**
   * Pressing Up `n` times moves the cursor `n` places towards 0 and then
   * stays at 0; nothing else changes.
   */
  lemma {:induction false} PrevNClamps(d: Snapshot, n: nat)
    ensures PrevN(d, n) == d.(selectedIdx := if d.selectedIdx < n then 0 else d.selectedIdx - n)
  {
    if n > 0 {
      PrevNClamps(d, n - 1);
    }
  }

  /** A name column filled up to width `p`, then a marker: where each part lies. */
  lemma PaddedThenMarker(shown: string, p: nat, fill: char, m: string)
    requires |shown| <= p
    ensures var t := PadRight(shown, p, fill) + m;
      && t[..|shown|] == shown
      && (forall k :: |shown| <= k < p ==> t[k] == fill)
      && t[p..] == m
  {
    var padded := PadRight(shown, p, fill);
    PadRightLayout(shown, p, fill);
    var t := padded + m;
    assert t[..|shown|] == padded[..|shown|];
  }

  /** The text of the row for an existing entry, given the facts a well-formed record provides. */
  lemma RowText(d: Snapshot, idx: nat, isTail: bool, config: Config)
    requires d.WellFormed() && idx < |d.contents|
    ensures var name := d.contents[idx].name;
            var truncated := |name| > config.maxColWidth;
            var cursor := idx == d.selectedIdx && !isTail;
            var shown := if truncated then name[..config.maxColWidth] else name;
            && |shown| <= d.PadSize(config)
            && (truncated ==> d.PadSize(config) == config.maxColWidth)
            && d.PaddedEntryRepr(idx, isTail, config).text
               == PadRight(shown, d.PadSize(config), if cursor then '-' else ' ') + Marker(truncated, cursor)
  {
    LongestNameLenIsMax(d.contents);
  }

  /** The layout facts of a row text built from a name, before the record is involved. */
  lemma TextLayout(name: string, maxColWidth: nat, p: nat, cursor: bool, t: string)
    requires var truncated := |name| > maxColWidth;
             var shown := if truncated then name[..maxColWidth] else name;
             && |shown| <= p && (truncated ==> p == maxColWidth)
             && t == PadRight(shown, p, if cursor then '-' else ' ') + Marker(truncated, cursor)
    ensures var truncated := |name| > maxColWidth;
            && (!truncated ==> |name| <= p && t[..|name|] == name)
            && (truncated ==> p == maxColWidth && t[..p] == name[..p] && t[p..p + 3] == "...")
            && (forall k :: Min(|name|, maxColWidth) <= k < p ==> t[k] == (if cursor then '-' else ' '))
            && ReadMarker(t[p..]) == Some((truncated, cursor))
  {
    var truncated := |name| > maxColWidth;
    var shown := if truncated then name[..maxColWidth] else name;
    var m := Marker(truncated, cursor);
    PaddedThenMarker(shown, p, if cursor then '-' else ' ', m);
    MarkerRoundTrip(truncated, cursor);
    if truncated {
      assert t[p..p + 3] == m[..3];
    }
  }

  /**
   * Layout of a row for an existing entry: the name (or its first
   * `maxColWidth` characters followed by "..."), then the fill up to the
   * name column width, then a marker that reads back as (truncated, cursor),
   * where the cursor form is used only on the selected row of a non-tail pane.
   */
  lemma RowLayout(d: Snapshot, idx: nat, isTail: bool, config: Config)
    requires d.WellFormed() && idx < |d.contents|
    ensures var r := d.PaddedEntryRepr(idx, isTail, config);
            var name := d.contents[idx].name;
            var p := d.PadSize(config);
            var truncated := |name| > config.maxColWidth;
            var cursor := idx == d.selectedIdx && !isTail;
            && (!truncated ==> |name| <= p && r.text[..|name|] == name)
            && (truncated ==> p == config.maxColWidth && r.text[..p] == name[..p] && r.text[p..p + 3] == "...")
            && (forall k :: Min(|name|, config.maxColWidth) <= k < p ==> r.text[k] == (if cursor then '-' else ' '))
            && ReadMarker(r.text[p..]) == Some((truncated, cursor))
  {
    RowText(d, idx, isTail, config);
    TextLayout(d.contents[idx].name, config.maxColWidth, d.PadSize(config), idx == d.selectedIdx && !isTail,
               d.PaddedEntryRepr(idx, isTail, config).text);
  }

  /**
   * Past the end of the listing the row is blank: `PadSize + 7` spaces in
   * the default style, whatever the pane and the cursor.
   */
  lemma BlankRow(d: Snapshot, idx: nat, isTail: bool, config: Config)
    requires idx >= |d.contents|
    ensures var r := d.PaddedEntryRepr(idx, isTail, config);
            && r.style == Reset && |r.text| == d.PadSize(config) + 7
            && forall k :: 0 <= k < |r.text| ==> r.text[k] == ' '
  {
    PadRightLayout("", d.PadSize(config), ' ');
  }

  /**
   * Style priority: red for the selected row of the tail pane, green for the
   * selected row of any other pane, cyan for other directory rows, reset for
   * the rest, including blank rows past the end of the listing (so a cursor
   * one past the last entry highlights no row).
   */
  lemma RowStyle(d: Snapshot, idx: nat, isTail: bool, config: Config)
    ensures var r := d.PaddedEntryRepr(idx, isTail, config);
            var present := idx < |d.contents|;
            && (r.style == Red <==> present && idx == d.selectedIdx && isTail)
            && (r.style == Green <==> present && idx == d.selectedIdx && !isTail)
            && (r.style == Cyan <==> present && idx != d.selectedIdx && d.contents[idx].isDir)
            && (r.style == Reset <==> !present || (idx != d.selectedIdx && !d.contents[idx].isDir))
  {
  }

  /** The directory record of the source, updated in place by the cursor moves. */
  class Directory {
    var name: string
    var contents: seq<Entry>
    var selectedIdx: nat
    var longestNameLen: nat

    function View(): Snapshot
      reads this
    {
      Snapshot(name, contents, selectedIdx, longestNameLen)
    }

    /** `Directory::new`: stores the fields and computes the longest name length. */
    constructor (name: string, contents: seq<Entry>, selectedIdx: nat)
      requires |contents| > 0
      ensures this.name == name && this.contents == contents && this.selectedIdx == selectedIdx
      ensures forall i :: 0 <= i < |contents| ==> |contents[i].name| <= longestNameLen
      ensures exists i :: 0 <= i < |contents| && |contents[i].name| == longestNameLen
      ensures View().longestNameLen == LongestNameLen(contents)
    {
      LongestNameLenIsMax(contents);
      this.name := name;
      this.contents := contents;
      this.selectedIdx := selectedIdx;
      this.longestNameLen := LongestNameLen(contents);
    }

    /** `select_next`: advances the cursor while it is before the end of the listing. */
    method SelectNext()
      modifies this`selectedIdx
      ensures View() == old(View()).Next()
      ensures old(selectedIdx) < |contents| ==> selectedIdx == old(selectedIdx) + 1
      ensures old(selectedIdx) >= |contents| ==> selectedIdx == old(selectedIdx)
    {
      if selectedIdx < |contents| {
        selectedIdx := selectedIdx + 1;
      }
    }

    /** `select_prev`: moves the cursor back unless it is at 0. */
    method SelectPrev()
      modifies this`selectedIdx
      ensures View() == old(View()).Prev()
      ensures old(selectedIdx) > 0 ==> selectedIdx == old(selectedIdx) - 1
      ensures old(selectedIdx) == 0 ==> selectedIdx == 0
    {
      if selectedIdx > 0 {
        selectedIdx := selectedIdx - 1;
      }
    }
  }

  /** No record occurs twice in the sequence. */
  ghost predicate Distinct(dirs: seq<Directory>)
  {
    forall a, b :: 0 <= a < b < |dirs| ==> dirs[a] != dirs[b]
  }

  lemma DistinctCons(d: Directory, dirs: seq<Directory>)
    requires Distinct(dirs) && d !in dirs
    ensures Distinct([d] + dirs)
  {
    var r := [d] + dirs;
    forall a, b | 0 <= a < b < |r|
      ensures r[a] != r[b]
    {
      assert r[b] == dirs[b - 1];
      if a > 0 {
        assert r[a] == dirs[a - 1];
      }
    }
  }

  /** The values of a sequence of directory records. */
  function Views(dirs: seq<Directory>): (s: seq<Snapshot>)
    reads dirs
    ensures |s| == |dirs|
  {
    if dirs == [] then [] else Views(dirs[..|dirs| - 1]) + [dirs[|dirs| - 1].View()]
  }

  /** Entry `k` of the views is the value of record `k`. */
  lemma {:induction false} ViewsAt(dirs: seq<Directory>, k: nat)
    requires k < |dirs|
    ensures Views(dirs)[k] == dirs[k].View()
    decreases |dirs|
  {
    var n := |dirs| - 1;
    if k < n {
      ViewsAt(dirs[..n], k);
      assert dirs[..n][k] == dirs[k];
    }
  }

  /** The views of a sequence with a record pushed to the front. */
  lemma ViewsCons(d: Directory, dirs: seq<Directory>)
    ensures Views([d] + dirs) == [d.View()] + Views(dirs)
  {
    var r := [d] + dirs;
    forall k | 0 <= k < |r|
      ensures Views(r)[k] == ([d.View()] + Views(dirs))[k]
    {
      ViewsAt(r, k);
      if k > 0 {
        ViewsAt(dirs, k - 1);
        assert r[k] == dirs[k - 1];
      }
    }
  }
}
