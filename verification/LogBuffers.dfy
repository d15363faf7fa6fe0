/**
 The growable log buffer: writers append text, the buffer grows up to a configured limit, and text
 beyond the limit is cut off and marked with a truncation string.
 */
module LogBuffers {
  import opened Common
  import opened Numerals

  const MAXLEN_PATH: nat := 1024
  const ZLOG_INT32_LEN: nat := 11
  const ZLOG_INT64_LEN: nat := 20
  const ZLOG_MAX_UINT32_VALUE: nat := 0xFFFF_FFFF

  // ----- what appending means -----

  /** The mark laid over the end of the text, as much of its beginning as fits. */
  function Overlaid(s: string, mark: string): (r: string)
    ensures |r| == |s|
  {
    if |mark| <= |s| then s[..|s| - |mark|] + mark else mark[..|s|]
  }

  predicate Fits(content: string, text: string, sizeMax: nat) {
    sizeMax == 0 || |content| + |text| <= sizeMax - 1
  }

  /** The one append that all writers amount to. */
  function Appended(content: string, text: string, sizeMax: nat, mark: string): (r: string)
    requires sizeMax == 0 || |content| < sizeMax
    ensures sizeMax == 0 || |r| < sizeMax
  {
    if Fits(content, text, sizeMax) then content + text else Overlaid((content + text)[..sizeMax - 1], mark)
  }

  /** An append that does not fit: what is left room for, then the mark. */
  lemma CutAppended(content: string, text: string, sizeMax: nat, mark: string)
    requires sizeMax != 0 && |content| < sizeMax && |content| + |text| > sizeMax - 1
    ensures Appended(content, text, sizeMax, mark) == Overlaid(content + text[..sizeMax - 1 - |content|], mark)
  {
    assert (content + text)[..sizeMax - 1] == content + text[..sizeMax - 1 - |content|];
  }

  lemma AppendNothing(content: string, sizeMax: nat, mark: string)
    requires sizeMax == 0 || |content| < sizeMax
    ensures Appended(content, "", sizeMax, mark) == content
  {
    assert content + "" == content;
  }

  // ----- padding -----

  function Spaces(k: nat): (s: string)
    ensures |s| == k
  {
    seq(k, _ => ' ')
  }

  /** str cut to outWidth characters (0: not cut) and padded to inWidth. */
  function Adjusted(str: string, leftAdjust: bool, inWidth: nat, outWidth: nat): string {
    var source := if outWidth == 0 || |str| < outWidth then str else str[..outWidth];
    var space := Spaces(if inWidth == 0 || |source| >= inWidth then 0 else inWidth - |source|);
    if leftAdjust then source + space else space + source
  }

  /** The width asked for is reached, the text is kept whole up to the cut, and the rest is blanks on the other side. */
  lemma AdjustedShape(str: string, leftAdjust: bool, inWidth: nat, outWidth: nat)
    ensures var r := Adjusted(str, leftAdjust, inWidth, outWidth);
            var source := if outWidth != 0 && outWidth < |str| then str[..outWidth] else str;
            && |r| == (if |source| < inWidth then inWidth else |source|)
            && (if leftAdjust then source <= r else r[|r| - |source|..] == source)
            && var blank := if leftAdjust then r[|source|..] else r[..|r| - |source|];
            forall k | 0 <= k < |blank| :: blank[k] == ' '
  {
    assert outWidth == |str| ==> str[..outWidth] == str;
  }

  /** The first source characters of str, and space blanks after or before them. */
  function Laid(str: string, leftAdjust: bool, source: nat, space: nat): (s: string)
    requires source <= |str|
    ensures |s| == source + space
  {
    if leftAdjust then str[..source] + Spaces(space) else Spaces(space) + str[..source]
  }

  /** Cutting laid text short cuts the part that comes last first. */
  lemma CutLaid(str: string, leftAdjust: bool, source: nat, space: nat, source': nat, space': nat)
    requires source' <= source <= |str| && space' <= space
    requires if leftAdjust then source' < source ==> space' == 0 else space' < space ==> source' == 0
    ensures Laid(str, leftAdjust, source, space)[..source' + space'] == Laid(str, leftAdjust, source', space')
  {
  }

  function ZeroPadded(num: string, width: nat): string {
    Zeros(if width > |num| then width - |num| else 0) + num
  }

  /** A zero-padded numeral is at least as wide as asked and reads back as its number. */
  lemma PaddedReadsBack(n: nat, base: nat, width: nat)
    requires Base(base)
    ensures var s, digits := ZeroPadded(Numeral(n, base), width), |Numeral(n, base)|;
            && |s| == (if width > digits then width else digits) && Value(s, base) == n
            && s[|s| - digits..] == Numeral(n, base) && forall k | 0 <= k < |s| - digits :: s[k] == '0'
  {
    ReadBack(n, base);
    LeadingZeros(if width > |Numeral(n, base)| then width - |Numeral(n, base)| else 0, Numeral(n, base), base);
  }

  // ----- runs of appends -----

  function Concat(texts: seq<string>): string {
    if texts == [] then "" else Concat(texts[..|texts| - 1]) + texts[|texts| - 1]
  }

  /** What the whole text should look like in a buffer of the given limit. */
  function Rendered(text: string, sizeMax: nat, mark: string): (r: string)
    ensures sizeMax == 0 || |r| < sizeMax
  {
    if Fits("", text, sizeMax) then text else Overlaid(text[..sizeMax - 1], mark)
  }

  function AppendedAll(texts: seq<string>, sizeMax: nat, mark: string): (r: string)
    ensures sizeMax == 0 || |r| < sizeMax
  {
    if texts == [] then ""
    else Appended(AppendedAll(texts[..|texts| - 1], sizeMax, mark), texts[|texts| - 1], sizeMax, mark)
  }

  /** The text cut to all that fits, its end replaced by as much of the beginning of the mark as fits. */
  ghost predicate CutAndMarked(r: string, text: string, sizeMax: nat, mark: string) {
    && 0 < sizeMax <= |text| && |r| == sizeMax - 1
    && var k := if |mark| < sizeMax then |mark| else sizeMax - 1;
    r[..|r| - k] == text[..|r| - k] && r[|r| - k..] == mark[..k]
  }

  /** An append keeps all of a text that fits, and cuts and marks one that does not. */
  lemma AppendedShape(content: string, text: string, sizeMax: nat, mark: string)
    requires sizeMax == 0 || |content| < sizeMax
    ensures var r := Appended(content, text, sizeMax, mark);
            if sizeMax == 0 || |content| + |text| < sizeMax then r == content + text
            else CutAndMarked(r, content + text, sizeMax, mark)
  {
  }

  lemma OverlayTwice(s: string, mark: string)
    ensures Overlaid(Overlaid(s, mark), mark) == Overlaid(s, mark)
  {
    if |mark| <= |s| {
      assert Overlaid(s, mark)[..|s| - |mark|] == s[..|s| - |mark|];
    }
  }

  /** Appending to what a text looks like gives what the longer text looks like. */
  lemma RenderOneMore(before: string, text: string, sizeMax: nat, mark: string)
    ensures Appended(Rendered(before, sizeMax, mark), text, sizeMax, mark) == Rendered(before + text, sizeMax, mark)
  {
    if !Fits("", before, sizeMax) {
      var cap := sizeMax - 1;
      var full := Overlaid(before[..cap], mark);
      assert (before + text)[..cap] == before[..cap];
      if text == "" {
        assert full + text == full;
      } else {
        assert (full + text)[..cap] == full;
        OverlayTwice(before[..cap], mark);
      }
    }
  }

  /**
   After any sequence of writes the buffer holds the concatenated texts if they fit in one
   character less than the limit, and otherwise their beginning with the mark laid over its end.
   */
  lemma {:induction false} WholeRun(texts: seq<string>, sizeMax: nat, mark: string)
    ensures AppendedAll(texts, sizeMax, mark) == Rendered(Concat(texts), sizeMax, mark)
    ensures var r := AppendedAll(texts, sizeMax, mark);
            if sizeMax == 0 || |Concat(texts)| < sizeMax then r == Concat(texts)
            else CutAndMarked(r, Concat(texts), sizeMax, mark)
    decreases |texts|
  {
    if texts != [] {
      var before := texts[..|texts| - 1];
      WholeRun(before, sizeMax, mark);
      RenderOneMore(Concat(before), texts[|texts| - 1], sizeMax, mark);
    }
  }

  // ----- the buffer in memory -----

  class LogBuffer {
    // start has size_real characters; end is its last position.
    var start: array<char>
    var tail: nat
    const sizeMin: nat
    const sizeMax: nat
    const truncateStr: string

    ghost predicate Valid()
      reads this, start
    {
      tail < start.Length && (sizeMax == 0 || start.Length <= sizeMax)
    }

    ghost function Content(): (s: string)
      requires Valid()
      reads this, start
      ensures |s| == tail
    {
      start[..tail]
    }

    constructor (sizeMin: nat, sizeMax: nat, truncateStr: string)
      requires sizeMin > 0 && (sizeMax == 0 || sizeMin <= sizeMax) && |truncateStr| <= MAXLEN_PATH
      ensures Valid() && fresh(start) && Content() == ""
      ensures this.sizeMax == sizeMax && this.truncateStr == truncateStr
    {
      start := new char[sizeMin](_ => '\0');
      tail := 0;
      this.sizeMin, this.sizeMax, this.truncateStr := sizeMin, sizeMax, truncateStr;
    }

    /** Space left before the last position. */
    function Left(): nat
      requires Valid()
      reads this, start
    {
      start.Length - 1 - tail
    }

    /** memcpy at the tail, moving the tail past it. */
    method Write(text: string)
      requires Valid() && |text| <= Left()
      modifies this`tail, start
      ensures Valid() && start == old(start)
      ensures Content() == old(Content()) + text
    {
      forall k | 0 <= k < |text| {
        start[tail + k] := text[k];
      }
      tail := tail + |text|;
    }

    /** memcpy over the end of the content. */
    method Overwrite(p: nat, text: string)
      requires Valid() && p + |text| == tail
      modifies start
      ensures Valid() && Content() == old(Content())[..p] + text
    {
      forall k | 0 <= k < |text| {
        start[p + k] := text[k];
      }
    }

    /** zlog_buf_truncate */
    method Truncate()
      requires Valid()
      modifies start
      ensures Valid() && Content() == Overlaid(old(Content()), truncateStr)
      ensures var n := |old(Content())|;
              var k := if |truncateStr| < n then |truncateStr| else n;
              && |Content()| == n && Content()[..n - k] == old(Content())[..n - k]
              && Content()[n - k..] == truncateStr[..k]
    {
      if truncateStr == "" {
        return;
      }
      var p := if |truncateStr| <= tail then tail - |truncateStr| else 0;
      var len := tail - p;
      Overwrite(p, truncateStr[..len]);
    }

    /** zlog_buf_resize: 0 if it grew by at least the increment, 1 if the limit stopped it. */
    method Resize(increment: nat) returns (rc: int)
      requires Valid() && increment > 0
      modifies this`start
      ensures Valid() && Content() == old(Content()) && (start == old(start) || fresh(start))
      ensures rc == 0 ==> start.Length == old(start.Length) + increment + (if sizeMax == 0 then increment / 2 else 0)
      ensures rc != 0 ==> rc == 1 && sizeMax != 0 && start.Length == sizeMax < old(start.Length) + increment
    {
      if sizeMax != 0 && start.Length >= sizeMax {
        return 1;
      }
      var newSize: nat;
      rc := 0;
      if sizeMax == 0 {
        newSize := start.Length + increment + increment / 2;
      } else if start.Length + increment <= sizeMax {
        newSize := start.Length + increment;
      } else {
        newSize, rc := sizeMax, 1;
      }
      Realloc(newSize);
    }

    method Realloc(newSize: nat)
      requires Valid() && start.Length <= newSize && (sizeMax == 0 || newSize <= sizeMax)
      modifies this`start
      ensures Valid() && Content() == old(Content()) && fresh(start) && start.Length == newSize
    {
      var p := new char[newSize](_ => '\0');
      forall k | 0 <= k < start.Length {
        p[k] := start[k];
      }
      start := p;
    }

    /** Writes as much of the text as is left room for, and marks it cut: the end of every overflow. */
    method WriteCut(text: string)
      requires Valid() && sizeMax != 0 && start.Length == sizeMax && |text| > Left()
      modifies this`tail, start
      ensures Valid() && start == old(start)
      ensures Content() == Appended(old(Content()), text, sizeMax, truncateStr)
    {
      var lenLeft := Left();
      CutAppended(Content(), text, sizeMax, truncateStr);
      Write(text[..lenLeft]);
      Truncate();
    }

    /** zlog_buf_append */
    method Append(str: string) returns (rc: int)
      requires Valid()
      modifies this, start
      ensures Valid() && (start == old(start) || fresh(start))
      ensures Content() == Appended(old(Content()), str, sizeMax, truncateStr)
      ensures rc == if sizeMax == 0 || |old(Content())| + |str| < sizeMax then 0 else 1
    {
      if |str| > Left() {
        rc := Resize(|str| - Left());
        if rc > 0 {
          WriteCut(str);
          return;
        }
      }
      Write(str);
      rc := 0;
    }

    /**
     zlog_buf_vprintf for a format and arguments that print as text, or None where vsnprintf fails:
     vsnprintf tries to write it, and is repeated after the buffer has grown.
     */
    method Vprintf(text: Option<string>) returns (rc: int)
      requires Valid()
      modifies this, start
      ensures Valid() && (start == old(start) || fresh(start))
      ensures text.None? ==> rc == -1 && Content() == old(Content())
      ensures text.Some? ==> Content() == Appended(old(Content()), text.value, sizeMax, truncateStr)
                             && rc == if sizeMax == 0 || |old(Content())| + |text.value| < sizeMax then 0 else 1
    {
      hide Overlaid;
      var sizeLeft := Left() + 1;
      var nwrite := Vsnprintf(text, sizeLeft);
      if 0 <= nwrite < sizeLeft {
        tail := tail + nwrite;
        return 0;
      } else if nwrite < 0 {
        return -1;
      }
      rc := Resize(nwrite - sizeLeft + 1);
      sizeLeft := Left() + 1;
      if rc > 0 { CutAppended(Content(), text.value, sizeMax, truncateStr); }
      nwrite := Vsnprintf(text, sizeLeft);
      if rc > 0 {
        tail := tail + sizeLeft - 1;
        Truncate();
        return 1;
      }
      tail := tail + nwrite;
      return 0;
    }

    /** vsnprintf at the tail: at most size - 1 characters and a NUL; returns the full length, or -1. */
    method Vsnprintf(text: Option<string>, size: nat) returns (nwrite: int)
      requires Valid() && size == Left() + 1
      modifies start
      ensures Valid() && Content() == old(Content())
      ensures nwrite == if text.Some? then |text.value| else -1
      ensures text.Some? ==> var m := if |text.value| < size then |text.value| else size - 1;
                             start[..tail + m] == old(Content()) + text.value[..m]
    {
      if text.None? {
        return -1;
      }
      var m := if |text.value| < size then |text.value| else size - 1;
      forall k | 0 <= k < m {
        start[tail + k] := text.value[k];
      }
      start[tail + m] := '\0';
      nwrite := |text.value|;
    }

    /** zlog_buf_adjust_append */
    method AdjustAppend(str: string, leftAdjust: bool, inWidth: nat, outWidth: nat) returns (rc: int)
      requires Valid()
      modifies this, start
      ensures Valid() && (start == old(start) || fresh(start))
      ensures Content() == Appended(old(Content()), Adjusted(str, leftAdjust, inWidth, outWidth), sizeMax, truncateStr)
      ensures rc == if sizeMax == 0 || |old(Content())| + |Adjusted(str, leftAdjust, inWidth, outWidth)| < sizeMax
                    then 0 else 1
    {
      var sourceLen := if outWidth == 0 || |str| < outWidth then |str| else outWidth;
      var appendLen, spaceLen := sourceLen, 0;
      if inWidth != 0 && sourceLen < inWidth {
        appendLen, spaceLen := inWidth, inWidth - sourceLen;
      }
      assert Adjusted(str, leftAdjust, inWidth, outWidth) == Laid(str, leftAdjust, sourceLen, spaceLen) by {
        assert str[..|str|] == str;
      }
      hide Adjusted, Overlaid, Laid;
      if appendLen > Left() {
        rc := Resize(appendLen - Left());
        if rc > 0 {
          WriteCutLaid(str, leftAdjust, sourceLen, spaceLen);
          return;
        }
      }
      Write(Laid(str, leftAdjust, sourceLen, spaceLen));
      rc := 0;
    }

    /** The overflow branch: the part of the laid text that is left room for. */
    method WriteCutLaid(str: string, leftAdjust: bool, source: nat, space: nat)
      requires Valid() && source <= |str| && source + space > Left()
      requires sizeMax != 0 && start.Length == sizeMax
      modifies this`tail, start
      ensures Valid() && start == old(start)
      ensures Content() == Appended(old(Content()), Laid(str, leftAdjust, source, space), sizeMax, truncateStr)
    {
      hide Overlaid, Laid;
      var appendLen := Left();
      var sourceLen, spaceLen := source, space;
      if leftAdjust {
        if sourceLen < appendLen {
          spaceLen := appendLen - sourceLen;
        } else {
          sourceLen, spaceLen := appendLen, 0;
        }
      } else {
        if spaceLen < appendLen {
          sourceLen := appendLen - spaceLen;
        } else {
          sourceLen, spaceLen := 0, appendLen;
        }
      }
      CutLaid(str, leftAdjust, source, space, sourceLen, spaceLen);
      CutAppended(Content(), Laid(str, leftAdjust, source, space), sizeMax, truncateStr);
      Write(Laid(str, leftAdjust, sourceLen, spaceLen));
      Truncate();
    }

    /** The part that the three numeral printers share: zero padding and the overflow. */
    method PrintPadded(num: string, width: nat) returns (rc: int)
      requires Valid()
      modifies this, start
      ensures Valid() && (start == old(start) || fresh(start))
      ensures Content() == Appended(old(Content()), ZeroPadded(num, width), sizeMax, truncateStr)
      ensures rc == if sizeMax == 0 || |old(Content())| + |ZeroPadded(num, width)| < sizeMax then 0 else 1
    {
      var numLen, zeroLen, outLen := |num|, 0, |num|;
      if width > numLen {
        zeroLen, outLen := width - numLen, width;
      }
      assert num[..|num|] == num;
      assert ZeroPadded(num, width) == Zeros(zeroLen) + num;
      hide ZeroPadded, Overlaid, Zeros;
      if outLen > Left() {
        rc := Resize(outLen - Left());
        if rc > 0 {
          WriteCutPadded(num, zeroLen);
          return;
        }
      }
      Write(Zeros(zeroLen) + num[..numLen]);
      rc := 0;
    }

    /** The overflow branch: the zeros and digits that are left room for. */
    method WriteCutPadded(num: string, zeros: nat)
      requires Valid() && zeros + |num| > Left() && sizeMax != 0 && start.Length == sizeMax
      modifies this`tail, start
      ensures Valid() && start == old(start)
      ensures Content() == Appended(old(Content()), Zeros(zeros) + num, sizeMax, truncateStr)
    {
      hide Overlaid;
      var lenLeft, zeroLen, numLen := Left(), zeros, |num|;
      CutAppended(Content(), Zeros(zeros) + num, sizeMax, truncateStr);
      if lenLeft <= zeroLen {
        zeroLen, numLen := lenLeft, 0;
      } else {
        numLen := lenLeft - zeroLen;
      }
      assert (Zeros(zeros) + num)[..lenLeft] == Zeros(zeroLen) + num[..numLen];
      Write(Zeros(zeroLen) + num[..numLen]);
      Truncate();
    }

    /** zlog_buf_printf_dec32 */
    method PrintDec32(ui32: nat, width: nat) returns (rc: int)
      requires Valid() && ui32 <= ZLOG_MAX_UINT32_VALUE
      modifies this, start
      ensures Valid() && (start == old(start) || fresh(start))
      ensures Content() == Appended(old(Content()), ZeroPadded(Numeral(ui32, 10), width), sizeMax, truncateStr)
      ensures rc == if sizeMax == 0 || |old(Content())| + |ZeroPadded(Numeral(ui32, 10), width)| < sizeMax then 0 else 1
    {
      var tmp := new char[ZLOG_INT32_LEN + 1];
      WordsFit();
      NumeralLength(ui32, 10, ZLOG_INT32_LEN);
      var p := WriteDigits(ui32, 10, tmp, ZLOG_INT32_LEN);
      rc := PrintPadded(tmp[p..ZLOG_INT32_LEN], width);
    }

    /** zlog_buf_printf_dec64 */
    method PrintDec64(ui64: nat, width: nat) returns (rc: int)
      requires Valid() && ui64 < 0x1_0000_0000_0000_0000
      modifies this, start
      ensures Valid() && (start == old(start) || fresh(start))
      ensures Content() == Appended(old(Content()), ZeroPadded(Numeral(ui64, 10), width), sizeMax, truncateStr)
      ensures rc == if sizeMax == 0 || |old(Content())| + |ZeroPadded(Numeral(ui64, 10), width)| < sizeMax then 0 else 1
    {
      var tmp := new char[ZLOG_INT64_LEN + 1];
      WordsFit();
      NumeralLength(ui64, 10, ZLOG_INT64_LEN);
      var p := WriteDigits(ui64, 10, tmp, ZLOG_INT64_LEN);
      rc := PrintPadded(tmp[p..ZLOG_INT64_LEN], width);
    }

    /** zlog_buf_printf_hex */
    method PrintHex(ui32: nat, width: nat) returns (rc: int)
      requires Valid() && ui32 <= ZLOG_MAX_UINT32_VALUE
      modifies this, start
      ensures Valid() && (start == old(start) || fresh(start))
      ensures Content() == Appended(old(Content()), ZeroPadded(Numeral(ui32, 16), width), sizeMax, truncateStr)
      ensures rc == if sizeMax == 0 || |old(Content())| + |ZeroPadded(Numeral(ui32, 16), width)| < sizeMax then 0 else 1
    {
      var tmp := new char[ZLOG_INT32_LEN + 1];
      WordsFit();
      NumeralLength(ui32, 16, ZLOG_INT32_LEN);
      var p := WriteDigits(ui32, 16, tmp, ZLOG_INT32_LEN);
      rc := PrintPadded(tmp[p..ZLOG_INT32_LEN], width);
    }
  }

  /** zlog_buf_new: no buffer for an empty minimum, a limit below it, or an overlong truncation string. */
  method BufNew(bufSizeMin: nat, bufSizeMax: nat, truncateStr: string) returns (b: LogBuffer?)
    ensures b == null <==> bufSizeMin == 0 || 0 < bufSizeMax < bufSizeMin || |truncateStr| > MAXLEN_PATH
    ensures b != null ==> fresh(b) && fresh(b.start) && b.Valid() && b.Content() == ""
    ensures b != null ==> b.sizeMax == bufSizeMax && b.truncateStr == truncateStr
  {
    if bufSizeMin == 0 || (bufSizeMax != 0 && bufSizeMax < bufSizeMin) || |truncateStr| > MAXLEN_PATH {
      return null;
    }
    b := new LogBuffer(bufSizeMin, bufSizeMax, truncateStr);
  }

  // ----- any mix of writers -----

  datatype Call =
    | AppendCall(str: string)
    | VprintfCall(text: Option<string>)
    | AdjustCall(str: string, leftAdjust: bool, inWidth: nat, outWidth: nat)
    | Dec32Call(n: nat, width: nat)
    | Dec64Call(n: nat, width: nat)
    | HexCall(n: nat, width: nat)
  {
    predicate InRange() {
      match this
      case Dec32Call(n, _) => n <= ZLOG_MAX_UINT32_VALUE
      case HexCall(n, _) => n <= ZLOG_MAX_UINT32_VALUE
      case Dec64Call(n, _) => n < 0x1_0000_0000_0000_0000
      case _ => true
    }

    function Text(): string {
      match this
      case AppendCall(str) => str
      case VprintfCall(text) => if text.Some? then text.value else ""
      case AdjustCall(str, leftAdjust, inWidth, outWidth) => Adjusted(str, leftAdjust, inWidth, outWidth)
      case Dec32Call(n, width) => ZeroPadded(Numeral(n, 10), width)
      case Dec64Call(n, width) => ZeroPadded(Numeral(n, 10), width)
      case HexCall(n, width) => ZeroPadded(Numeral(n, 16), width)
    }
  }

  function Texts(calls: seq<Call>): (ts: seq<string>)
    ensures |ts| == |calls|
  {
    seq(|calls|, i requires 0 <= i < |calls| => calls[i].Text())
  }

  method Perform(b: LogBuffer, call: Call)
    requires b.Valid() && call.InRange()
    modifies b, b.start
    ensures b.Valid() && (b.start == old(b.start) || fresh(b.start))
    ensures b.Content() == Appended(old(b.Content()), call.Text(), b.sizeMax, b.truncateStr)
  {
    AppendNothing(b.Content(), b.sizeMax, b.truncateStr);
    hide Appended, Adjusted, ZeroPadded, Numeral, Fits;
    var rc;
    match call {
      case AppendCall(str) => rc := b.Append(str);
      case VprintfCall(text) => rc := b.Vprintf(text);
      case AdjustCall(str, leftAdjust, inWidth, outWidth) => rc := b.AdjustAppend(str, leftAdjust, inWidth, outWidth);
      case Dec32Call(n, width) => rc := b.PrintDec32(n, width);
      case Dec64Call(n, width) => rc := b.PrintDec64(n, width);
      case HexCall(n, width) => rc := b.PrintHex(n, width);
    }
  }

  /** Any sequence of the six writers on an empty buffer. */
  method WriteAll(b: LogBuffer, calls: seq<Call>)
    requires b.Valid() && b.Content() == "" && forall call | call in calls :: call.InRange()
    modifies b, b.start
    ensures b.Valid() && b.Content() == Rendered(Concat(Texts(calls)), b.sizeMax, b.truncateStr)
    ensures var text := Concat(Texts(calls));
            if b.sizeMax == 0 || |text| < b.sizeMax then b.Content() == text
            else CutAndMarked(b.Content(), text, b.sizeMax, b.truncateStr)
  {
    hide Appended, Rendered;
    for i := 0 to |calls|
      invariant b.Valid() && (b.start == old(b.start) || fresh(b.start))
      invariant b.Content() == AppendedAll(Texts(calls)[..i], b.sizeMax, b.truncateStr)
    {
      assert calls[i] in calls;
      assert Texts(calls)[..i + 1][..i] == Texts(calls)[..i];
      Perform(b, calls[i]);
    }
    assert Texts(calls)[..|calls|] == Texts(calls);
    WholeRun(Texts(calls), b.sizeMax, b.truncateStr);
  }
}
