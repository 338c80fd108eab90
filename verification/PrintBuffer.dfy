/** The printbuffer of cJSON: a text is written into a buffer that is either fixed or grows.
    A strcpy, a memcpy or a run of stores through the output pointer is one Write; allocation
    may fail at any call. */
module PrintBuffers {
  import opened Bytes
  import opened JsonTree
  import opened StringCodec
  import opened Printer
  import opened Nodes
  import opened Trees
  import opened Duplication
  import opened NodeValues
  import NumberCodec

  const LONG_MAX: nat := 0x7FFF_FFFF_FFFF_FFFF

  /** The bytes a buffer must have for printing `v` alone: a number is written with its
      terminator only, everything else reserves one byte more. */
  function Reserve(v: Json, fmt: bool, depth: nat): nat
    requires Printable(v)
  {
    |ValueText(v, fmt, depth)| + if v.Number? then 1 else 2
  }

  class PrintBuffer {
    var buffer: array?<byte>
    var length: nat
    var offset: nat
    var depth: nat
    const noalloc: bool
    const format: bool
    const heap: Heap
    /** The blocks that are live apart from a buffer that grows. */
    ghost const others: set<object>

    constructor (heap: Heap, buffer: array<byte>, length: nat, noalloc: bool, format: bool)
      requires length <= buffer.Length && length <= LONG_MAX
      requires noalloc || (buffer in heap.live && (heap.reallocates || buffer.Length > 0))
      ensures this.buffer == buffer && this.length == length && offset == 0 && depth == 0
      ensures this.noalloc == noalloc && this.format == format && this.heap == heap
      ensures Owned() && others == heap.live - if noalloc then {} else {buffer}
    {
      this.buffer := buffer;
      this.length := length;
      this.offset := 0;
      this.depth := 0;
      this.noalloc := noalloc;
      this.format := format;
      this.heap := heap;
      this.others := heap.live - if noalloc then {} else {buffer};
    }

    /** A buffer that grows is the one block that the print adds to the live ones. */
    ghost predicate Owned()
      reads this, heap
    {
      if noalloc then heap.live == others
      else heap.live == others + Strings(buffer) && others !! Strings(buffer)
    }

    /** The buffer holds exactly `text` up to the offset. */
    ghost predicate Ready(text: bytes)
      reads this, buffer, heap
    {
      && Owned() && buffer != null && (noalloc || heap.reallocates || offset < buffer.Length)
      && length <= buffer.Length && length <= LONG_MAX
      && offset == |text|
      && (if length == 0 then offset == 0 else offset < length)
      && buffer[..offset] == text
    }

    /** The buffer holds `text` and its terminator; the offset has not passed the end. */
    ghost predicate Holds(text: bytes)
      reads this, buffer, heap
    {
      && Owned() && buffer != null
      && |text| < length <= buffer.Length && length <= LONG_MAX
      && offset <= |text|
      && buffer[..|text|] == text
      && buffer[|text|] == NUL
    }

    /** Why a print that needs `total` bytes may fail; the blocks are accounted for then, too. */
    ghost predicate Refused(total: nat)
      reads this, heap
    {
      Owned() && if noalloc then total > length else heap.refused || total > LONG_MAX
    }

    /** A larger buffer with the bytes up to the offset and one more; a refusal frees the old one. */
    method Grow(newSize: nat, ghost text: bytes) returns (ok: bool)
      requires Ready(text) && !noalloc && offset < newSize <= LONG_MAX
      modifies this`buffer, this`length, heap
      ensures buffer == null || fresh(buffer)
      ensures ok ==> Ready(text) && length == newSize
      ensures !ok ==> Owned() && heap.refused
    {
      var newBuffer;
      if heap.reallocates {
        newBuffer := heap.Reallocate(buffer, newSize);
        if newBuffer == null {
          heap.Deallocate(buffer);
        }
      } else {
        newBuffer := heap.Allocate(newSize);
        if newBuffer != null {
          forall i | 0 <= i < offset + 1 {
            newBuffer[i] := buffer[i];
          }
        }
        heap.Deallocate(buffer);
      }
      ok := newBuffer != null;
      assert ok ==> newBuffer[..offset] == text;
      buffer, length := newBuffer, if ok then newSize else 0;
    }

    /** Make room for `needed` bytes behind the offset and one more. */
    method Ensure(needed: nat, ghost text: bytes) returns (ok: bool)
      requires Ready(text)
      modifies this`buffer, this`length, heap
      ensures noalloc ==> buffer == old(buffer) && length == old(length)
      ensures buffer == old(buffer) || buffer == null || fresh(buffer)
      ensures ok ==> Ready(text) && offset + needed + 1 <= length
      ensures noalloc ==> ok == (offset + needed + 1 <= length)
      ensures !ok ==> Refused(offset + needed + 1)
    {
      if buffer == null || (length > 0 && offset >= length) || needed > LONG_MAX {
        return false;
      }
      var total := needed + offset + 1;
      if total <= length {
        return true;
      }
      if noalloc {
        return false;
      }
      var newSize;
      if total > LONG_MAX / 2 {
        if total <= LONG_MAX {
          newSize := LONG_MAX;
        } else {
          return false;
        }
      } else {
        newSize := total * 2;
      }
      ok := Grow(newSize, text);
    }

    /** A fixed buffer stays the same block, and nothing at or past its capacity is written. */
    twostate predicate WithinCapacity()
      reads this, buffer
    {
      noalloc ==>
        && buffer == old(buffer) && length == old(length)
        && (buffer != null ==> forall i | length <= i < buffer.Length :: buffer[i] == old(buffer[i]))
    }

    /** Reserve room and store `t` behind the offset, with a terminator if asked. */
    method Write(t: bytes, needed: nat, terminate: bool, ghost text: bytes) returns (ok: bool)
      requires Ready(text) && |t| <= needed
      modifies this, buffer, heap
      ensures offset == old(offset) && depth == old(depth)
      ensures WithinCapacity()
      ensures buffer == old(buffer) || buffer == null || fresh(buffer)
      ensures noalloc ==> ok == (offset + needed + 1 <= length)
      ensures !ok ==> Refused(offset + needed + 1)
      ensures ok ==> Owned() && buffer != null && offset + needed + 1 <= length <= buffer.Length && length <= LONG_MAX
      ensures ok ==> buffer[..offset + |t|] == text + t
      ensures ok && terminate ==> buffer[offset + |t|] == NUL
    {
      ok := Ensure(needed, text);
      if !ok {
        return false;
      }
      forall i | 0 <= i < |t| {
        buffer[offset + i] := t[i];
      }
      if terminate {
        buffer[offset + |t|] := NUL;
      }
      assert buffer[..offset + |t|] == text + t;
    }

    /** Store `t` and move the offset behind it. */
    method Append(t: bytes, needed: nat, terminate: bool, ghost text: bytes) returns (ok: bool)
      requires Ready(text) && |t| <= needed
      modifies this, buffer, heap
      ensures ok ==> offset == old(offset) + |t|
      ensures depth == old(depth) && WithinCapacity()
      ensures buffer == old(buffer) || buffer == null || fresh(buffer)
      ensures ok ==> Ready(text + t)
      ensures !ok ==> Refused(|text| + needed + 1)
    {
      ok := Write(t, needed, terminate, text);
      if ok {
        offset := offset + |t|;
      }
    }

    /** Store `t` and a terminator, leaving the offset where it is. */
    method Close(t: bytes, needed: nat, ghost text: bytes) returns (ok: bool)
      requires Ready(text) && |t| <= needed
      modifies this, buffer, heap
      ensures offset == old(offset) && depth == old(depth) && WithinCapacity()
      ensures buffer == old(buffer) || buffer == null || fresh(buffer)
      ensures noalloc ==> ok == (|text| + needed + 1 <= length)
      ensures ok ==> Holds(text + t)
      ensures !ok ==> Refused(|text| + needed + 1)
    {
      ok := Write(t, needed, true, text);
    }

    /** One turn of the escaping loop of print_string_ptr: `b` is stored at `p`. */
    method StoreEscaped(b: byte, p: nat) returns (q: nat)
      requires buffer != null && b != NUL && p + |EscapeByte(b)| <= buffer.Length
      modifies buffer
      ensures q == p + |EscapeByte(b)|
      ensures buffer[..q] == old(buffer[..p]) + EscapeByte(b)
      ensures forall i | q <= i < buffer.Length :: buffer[i] == old(buffer[i])
    {
      var letter := EscapeLetter(b);
      if b > 31 && b != QUOTE && b != BACKSLASH {
        buffer[p] := b;
        q := p + 1;
        assert buffer[..q] == old(buffer[..p]) + [b];
      } else if letter != LOWER_U {
        buffer[p], buffer[p + 1] := BACKSLASH, letter;
        q := p + 2;
        assert buffer[..q] == old(buffer[..p]) + [BACKSLASH, letter];
      } else {
        buffer[p], buffer[p + 1], buffer[p + 2], buffer[p + 3] := BACKSLASH, LOWER_U, DIGIT_0, DIGIT_0;
        buffer[p + 4], buffer[p + 5] := HexDigit(b / 16), HexDigit(b % 16);
        q := p + 6;
        assert buffer[..q] == old(buffer[..p]) + [BACKSLASH, LOWER_U, DIGIT_0, DIGIT_0, HexDigit(b / 16),
            HexDigit(b % 16)];
      }
    }

    /** print_string_ptr on a string that is there. */
    method PrintString(s: bytes, ghost text: bytes) returns (ok: bool)
      requires Ready(text) && NulFree(s)
      modifies this, buffer, heap
      ensures offset == old(offset) && depth == old(depth)
      ensures WithinCapacity()
      ensures buffer == old(buffer) || buffer == null || fresh(buffer)
      ensures noalloc ==> ok == (|text| + |Quoted(s)| + 2 <= length)
      ensures !ok ==> Refused(|text| + |Quoted(s)| + 2)
      ensures ok ==> Holds(text + Quoted(s)) && |text| + |Quoted(s)| + 2 <= length
    {
      var escapeCharacters := CountEscapes(s);
      var outputLength := |s| + escapeCharacters;
      EscapedLength(s);
      ok := Ensure(outputLength + 3, text);
      if !ok {
        return false;
      }
      if escapeCharacters == 0 {
        EscapeNothing(s);
        StoreQuoted(s, text);
      } else {
        EscapeInto(s, outputLength, text);
      }
    }

    method StoreQuoted(s: bytes, ghost text: bytes)
      requires Ready(text) && Escape(s) == s && offset + |s| + 4 <= length
      modifies buffer
      ensures Holds(text + Quoted(s))
      ensures forall i | length <= i < buffer.Length :: buffer[i] == old(buffer[i])
    {
      hide Escape;
      buffer[offset] := QUOTE;
      forall i | 0 <= i < |s| {
        buffer[offset + 1 + i] := s[i];
      }
      buffer[offset + |s| + 1] := QUOTE;
      buffer[offset + |s| + 2] := NUL;
      assert buffer[..offset + |Quoted(s)|] == text + Quoted(s);
    }

    method EscapeInto(s: bytes, outputLength: nat, ghost text: bytes)
      requires Ready(text) && NulFree(s) && |Quoted(s)| == outputLength + 2 && offset + outputLength + 4 <= length
      modifies buffer
      ensures Holds(text + Quoted(s))
      ensures forall i | length <= i < buffer.Length :: buffer[i] == old(buffer[i])
    {
      buffer[offset] := QUOTE;
      var p := offset + 1;
      assert buffer[..p] == text + [QUOTE];
      ghost var start := text + [QUOTE];
      assert start + Escape(s[..0]) == start;
      for i := 0 to |s|
        invariant p == |start| + |Escape(s[..i])| <= offset + outputLength + 1
        invariant buffer[..p] == start + Escape(s[..i])
        invariant forall j | length <= j < buffer.Length :: buffer[j] == old(buffer[j])
      {
        EscapeStep(s, i);
        p := StoreEscaped(s[i], p);
        Assoc(start, Escape(s[..i]), EscapeByte(s[i]));
      }
      assert s[..|s|] == s;
      buffer[offset + outputLength + 1] := QUOTE;
      buffer[offset + outputLength + 2] := NUL;
      assert buffer[..p + 1] == start + Escape(s) + [QUOTE];
      Assoc(text, [QUOTE], Escape(s));
      Assoc(text, [QUOTE] + Escape(s), [QUOTE]);
    }

    /** print_number on a plain integer; it moves the offset itself. */
    method PrintNumber(n: int, ghost text: bytes) returns (ok: bool)
      requires Ready(text) && NumberCodec.IsPlainInteger(n)
      modifies this, buffer, heap
      ensures ok ==> old(offset) <= offset
      ensures depth == old(depth) && WithinCapacity()
      ensures buffer == old(buffer) || buffer == null || fresh(buffer)
      ensures noalloc ==> ok == (|text| + |NumberCodec.Decimal(n)| + 1 <= length)
      ensures !ok ==> Refused(|text| + |NumberCodec.Decimal(n)| + 1)
      ensures ok ==> Holds(text + NumberCodec.Decimal(n))
    {
      var number := NumberCodec.Decimal(n);
      NumberCodec.FifteenDigits(n);
      assert |number| <= 25;
      ok := Write(number, |number|, true, text);
      if ok {
        offset := offset + |number|;
      }
    }

    /** The block that is written to is not one of the strings. */
    ghost predicate Apart(texts: set<array<byte>>)
      reads this
    {
      buffer == null || buffer !in texts
    }

    /** print_string_ptr on the string of a node, which may be missing. */
    method PrintStringPtr(input: array?<byte>, ghost text: bytes) returns (ok: bool)
      requires Ready(text) && HasEnd(input) && Apart(Strings(input))
      modifies this, buffer, heap
      ensures offset == old(offset) && depth == old(depth)
      ensures WithinCapacity()
      ensures buffer == old(buffer) || buffer == null || fresh(buffer)
      ensures var q := old(Quoted(TextIn(TextOf(input))));
              && (noalloc ==> ok == (|text| + |q| + 2 <= length))
              && (!ok ==> Refused(|text| + |q| + 2))
              && (ok ==> Holds(text + q))
    {
      hide Escape, CString;
      if input == null {
        NothingQuoted();
        ok := Close([QUOTE, QUOTE], 3, text);
      } else {
        ok := PrintString(CString(input[..]), text);
      }
    }

    /** print_value for a node that stands for `v`. `text` is what the buffer holds already. */
    method PrintValue(item: Node, ghost s: Shape, ghost v: Json, ghost text: bytes) returns (ok: bool)
      requires Ready(text) && Printable(v) && Says(item, s, v) && Apart(TextSet(s))
      modifies this, buffer, heap
      ensures ok ==> old(offset) <= offset
      ensures (ok ==> depth == old(depth)) && WithinCapacity()
      ensures buffer == old(buffer) || buffer == null || fresh(buffer)
      ensures noalloc ==> ok == (|text| + Reserve(v, format, old(depth)) <= length)
      ensures !ok ==> Refused(|text| + Reserve(v, format, old(depth)))
      ensures ok ==> Holds(text + ValueText(v, format, old(depth)))
      decreases s, 2
    {
      hide Linked, NodesOf, NodeSet, NodeSets, Inner, TextSet, TextSets, Says, Walking, ItemsSay, MembersSay;
      hide TreeOf, ItemsOf, MembersOf, ImageOf, Images, Shaped, AllShaped, Readable, AllReadable;
      hide HasEnd, TextOf, ItemsText, MembersText, Quoted;
      Opened(item, s, v);
      if item.kind == IsNull {
        ok := Close(NULL_TEXT, 5, text);
      } else if item.kind == IsFalse {
        ok := Close(FALSE_TEXT, 6, text);
      } else if item.kind == IsTrue {
        ok := Close(TRUE_TEXT, 5, text);
      } else if item.kind == IsNumber {
        ok := PrintNumber(item.valuedouble.Floor, text);
      } else if item.kind == IsString {
        ok := PrintStringPtr(item.valuestring, text);
      } else if item.kind == IsArray {
        ok := PrintArray(item, s, v.items, text);
      } else {
        ok := PrintObject(item, s, v.members, text);
      }
    }

    /** Behind a value that has been printed, the offset moves to its end. */
    method Advance(ghost text: bytes, ghost t: bytes)
      requires Holds(text + t) && |text| <= offset && NulFree(t)
      modifies this`offset
      ensures Ready(text + t)
    {
      assert forall i | offset <= i < |text + t| :: buffer[i] == buffer[..|text + t|][i] == t[i - |text|];
      UpdateOffset(|text + t|);
    }

    /** print_value and update_offset. */
    method PrintValueOn(item: Node, ghost s: Shape, ghost v: Json, ghost text: bytes) returns (ok: bool)
      requires Ready(text) && Printable(v) && Says(item, s, v) && Apart(TextSet(s))
      modifies this, buffer, heap
      ensures ok ==> old(offset) <= offset
      ensures (ok ==> depth == old(depth)) && WithinCapacity()
      ensures buffer == old(buffer) || buffer == null || fresh(buffer)
      ensures ok ==> Ready(text + ValueText(v, format, old(depth)))
      ensures !ok ==> Refused(|text| + |ValueText(v, format, old(depth))| + 2)
      decreases s, 3
    {
      hide Linked, NodesOf, NodeSet, NodeSets, Inner, TextSet, TextSets, Says, Walking, ItemsSay, MembersSay;
      hide TreeOf, ItemsOf, MembersOf, ImageOf, Images, Shaped, AllShaped, Readable, AllReadable;
      hide ValueText;
      ghost var t := ValueText(v, format, depth);
      ok := PrintValue(item, s, v, text);
      if ok {
        ValueTextNulFree(v, format, depth);
        Advance(text, t);
      }
    }

    /** One element of an array and the comma behind it. */
    method PrintItem(current: Node, ghost s: Shape, ghost head: Json, ghost tail: Items, ghost text: bytes)
      returns (ok: bool)
      requires Ready(text) && Printable(head) && Says(current, s, head) && Apart(TextSet(s))
      requires current.next == null <==> tail == NoItems
      modifies this, buffer, heap
      ensures ok ==> old(offset) <= offset
      ensures (ok ==> depth == old(depth)) && WithinCapacity()
      ensures buffer == old(buffer) || buffer == null || fresh(buffer)
      ensures var t := ValueText(head, format, old(depth)) + ItemSeparator(tail, format);
              && (ok ==> Ready(text + t))
              && (!ok ==> Refused(|text| + |t| + 2))
      decreases s, 4
    {
      hide Linked, NodesOf, NodeSet, NodeSets, Inner, TextSet, TextSets, Says, Walking, ItemsSay, MembersSay;
      hide TreeOf, ItemsOf, MembersOf, ImageOf, Images, Shaped, AllShaped, Readable, AllReadable;
      hide ValueText;
      ghost var h := ValueText(head, format, depth);
      Allocated(s);
      ok := PrintValueOn(current, s, head, text);
      if !ok {
        return;
      }
      if current.next != null {
        var separator := [COMMA] + When(format, SPACE);
        ok := Append(separator, |separator| + 1, true, text + h);
        Assoc(text, h, separator);
      } else {
        assert h + [] == h;
      }
    }

    /** The loop of print_array. */
    method PrintItems(first: Node?, ghost l: seq<Shape>, ghost items: Items, ghost text: bytes) returns (ok: bool)
      requires Ready(text) && PrintableItems(items) && ItemsSay(first, l, 0, first, items) && Apart(TextSets(l))
      modifies this, buffer, heap
      ensures ok ==> old(offset) <= offset
      ensures (ok ==> depth == old(depth)) && WithinCapacity()
      ensures buffer == old(buffer) || buffer == null || fresh(buffer)
      ensures ok ==> Ready(text + ItemsText(items, format, old(depth)))
      ensures !ok ==> Refused(|text| + |ItemsText(items, format, old(depth))| + 2)
      decreases l
    {
      hide Linked, NodesOf, NodeSet, NodeSets, Inner, TextSet, TextSets, Says, Walking, ItemsSay, MembersSay;
      hide TreeOf, ItemsOf, MembersOf, ImageOf, Images, Shaped, AllShaped, Readable, AllReadable;
      hide ValueText, ItemsText, ItemSeparator;
      AllAllocated(l);
      ok := true;
      ghost var done, rest, i := text, items, 0;
      var current := first;
      while current != null
        invariant ok && depth == old(depth) && old(offset) <= offset
        invariant WithinCapacity()
        invariant (buffer == old(buffer) || fresh(buffer)) && Apart(TextSets(l))
        invariant Ready(done) && PrintableItems(rest) && 0 <= i <= |l| && ItemsSay(first, l, i, current, rest)
        invariant text + ItemsText(items, format, depth) == done + ItemsText(rest, format, depth)
        decreases |l| - i
      {
        ItemsStep(first, l, i, current, rest);
        ItemsProgress(rest, format, depth, done);
        ghost var t := ValueText(rest.head, format, depth) + ItemSeparator(rest.tail, format);
        ok := PrintItem(current, l[i], rest.head, rest.tail, done);
        if !ok {
          return;
        }
        done, rest, i := done + t, rest.tail, i + 1;
        current := current.next;
      }
      ItemsStep(first, l, i, current, rest);
      ItemsDone(rest, format, depth, done);
    }

    /** The end of a list, one level up. */
    method CloseList(t: bytes, needed: nat, ghost text: bytes) returns (ok: bool)
      requires Ready(text) && |t| <= needed && depth > 0
      modifies this, buffer, heap
      ensures offset == old(offset) && depth == old(depth) - 1 && WithinCapacity()
      ensures buffer == old(buffer) || buffer == null || fresh(buffer)
      ensures noalloc ==> ok == (|text| + needed + 1 <= length)
      ensures ok ==> Holds(text + t)
      ensures !ok ==> Refused(|text| + needed + 1)
    {
      ok := Close(t, needed, text);
      depth := depth - 1;
    }

    method CloseObject(ghost text: bytes) returns (ok: bool)
      requires Ready(text) && depth > 0
      modifies this, buffer, heap
      ensures offset == old(offset) && depth == old(depth) - 1 && WithinCapacity()
      ensures buffer == old(buffer) || buffer == null || fresh(buffer)
      ensures var t := Indent(format, old(depth) - 1) + [RIGHT_BRACE];
              && (noalloc ==> ok == (|text| + |t| + 2 <= length))
              && (ok ==> Holds(text + t))
              && (!ok ==> Refused(|text| + |t| + 2))
    {
      ok := CloseList(Indent(format, depth - 1) + [RIGHT_BRACE], if format then depth + 1 else 2, text);
    }

    /** print_array */
    method PrintArray(item: Node, ghost s: Shape, ghost items: Items, ghost text: bytes) returns (ok: bool)
      requires Ready(text) && PrintableItems(items)
      requires ItemsSay(item.child, s.kids, 0, item.child, items) && Apart(TextSets(s.kids))
      modifies this, buffer, heap
      ensures ok ==> old(offset) <= offset
      ensures (ok ==> depth == old(depth)) && WithinCapacity()
      ensures buffer == old(buffer) || buffer == null || fresh(buffer)
      ensures var t := ValueText(Array(items), format, old(depth));
              && (noalloc ==> ok == (|text| + |t| + 2 <= length))
              && (!ok ==> Refused(|text| + |t| + 2))
              && (ok ==> Holds(text + t))
      decreases s, 0
    {
      hide Linked, NodesOf, NodeSet, NodeSets, Inner, TextSet, TextSets, Says, Walking, ItemsSay, MembersSay;
      hide TreeOf, ItemsOf, MembersOf, ImageOf, Images, Shaped, AllShaped, Readable, AllReadable;
      hide ValueText, ItemsText;
      AllAllocated(s.kids);
      ArrayPieces(items, format, depth, text);
      ok := Append([LEFT_BRACKET], 1, false, text);
      if !ok {
        return;
      }
      depth := depth + 1;
      ghost var t := ItemsText(items, format, depth);
      ok := PrintItems(item.child, s.kids, items, text + [LEFT_BRACKET]);
      if !ok {
        return;
      }
      ok := CloseList([RIGHT_BRACKET], 2, text + [LEFT_BRACKET] + t);
    }

    /** The key of a member, with the tabs in front of it and the colon behind it. */
    method PrintKey(name: array?<byte>, ghost text: bytes) returns (ok: bool)
      requires Ready(text) && HasEnd(name) && Apart(Strings(name))
      modifies this, buffer, heap
      ensures ok ==> old(offset) <= offset
      ensures (ok ==> depth == old(depth)) && WithinCapacity()
      ensures buffer == old(buffer) || buffer == null || fresh(buffer)
      ensures var t := KeyText(old(TextIn(TextOf(name))), format, old(depth));
              && (ok ==> Ready(text + t))
              && (!ok ==> Refused(|text| + |t| + 1))
    {
      hide CString;
      ghost var key := TextIn(TextOf(name));
      ghost var indent := Indent(format, depth);
      ghost var q := Quoted(key);
      KeyGroups(key, format, depth, text);
      if format {
        ok := Append(Indent(true, depth), depth, false, text);
        if !ok {
          return;
        }
      }
      assert text + [] == text;
      assert Ready(text + indent);
      ok := PrintStringPtr(name, text + indent);
      if !ok {
        return;
      }
      QuotedNulFree(key);
      Advance(text + indent, q);
      var colon := [COLON] + When(format, TAB);
      ok := Append(colon, |colon|, false, text + indent + q);
    }

    /** One member of an object, with everything up to the next one. */
    method PrintMember(current: Node, ghost s: Shape, ghost member: Members, ghost text: bytes) returns (ok: bool)
      requires Ready(text) && PrintableMembers(member) && member.Member?
      requires Says(current, s, member.value) && Apart(TextSet(s))
      requires HasEnd(current.name) && member.key == TextIn(TextOf(current.name)) && Apart(Strings(current.name))
      requires current.next == null <==> member.rest == NoMembers
      modifies this, buffer, heap
      ensures ok ==> old(offset) <= offset
      ensures (ok ==> depth == old(depth)) && WithinCapacity()
      ensures buffer == old(buffer) || buffer == null || fresh(buffer)
      ensures var t := MemberText(member, format, old(depth));
              && (ok ==> Ready(text + t))
              && (!ok ==> Refused(|text| + |t| + 2))
      decreases s, 4
    {
      hide Linked, NodesOf, NodeSet, NodeSets, Inner, TextSet, TextSets, Says, Walking, ItemsSay, MembersSay;
      hide TreeOf, ItemsOf, MembersOf, ImageOf, Images, Shaped, AllShaped, Readable, AllReadable;
      hide ValueText, KeyText, HasEnd, TextOf, TextIn, Quoted, When, Indent, MemberText;
      ghost var q := KeyText(member.key, format, depth);
      ghost var t := ValueText(member.value, format, depth);
      MemberPieces(member, format, depth, text);
      Allocated(s);
      AllAllocated(s.kids);
      ok := PrintKey(current.name, text);
      if !ok {
        return;
      }
      ok := PrintValueOn(current, s, member.value, text + q);
      if !ok {
        return;
      }
      var separator := When(current.next != null, COMMA) + When(format, LF);
      ok := Append(separator, |separator| + 1, true, text + q + t);
    }

    /** The loop of print_object. */
    method PrintMembers(first: Node?, ghost l: seq<Shape>, ghost members: Members, ghost text: bytes) returns (ok: bool)
      requires Ready(text) && PrintableMembers(members) && MembersSay(first, l, 0, first, members) && Apart(TextSets(l))
      modifies this, buffer, heap
      ensures ok ==> old(offset) <= offset
      ensures (ok ==> depth == old(depth)) && WithinCapacity()
      ensures buffer == old(buffer) || buffer == null || fresh(buffer)
      ensures ok ==> Ready(text + MembersText(members, format, old(depth)))
      ensures !ok ==> Refused(|text| + |MembersText(members, format, old(depth))| + 2)
      decreases l
    {
      hide Linked, NodesOf, NodeSet, NodeSets, Inner, TextSet, TextSets, Says, Walking, ItemsSay, MembersSay;
      hide TreeOf, ItemsOf, MembersOf, ImageOf, Images, Shaped, AllShaped, Readable, AllReadable;
      hide ValueText, KeyText, MembersText, MemberText, TextOf, HasEnd;
      AllAllocated(l);
      ok := true;
      ghost var done, rest, i := text, members, 0;
      var current := first;
      while current != null
        invariant ok && depth == old(depth) && old(offset) <= offset
        invariant WithinCapacity()
        invariant (buffer == old(buffer) || fresh(buffer)) && Apart(TextSets(l))
        invariant Ready(done) && PrintableMembers(rest) && 0 <= i <= |l| && MembersSay(first, l, i, current, rest)
        invariant text + MembersText(members, format, depth) == done + MembersText(rest, format, depth)
        decreases |l| - i
      {
        MembersStep(first, l, i, current, rest);
        MembersProgress(rest, format, depth, done);
        ghost var t := MemberText(rest, format, depth);
        ok := PrintMember(current, l[i], rest, done);
        if !ok {
          return;
        }
        done, rest, i := done + t, rest.rest, i + 1;
        current := current.next;
      }
      MembersStep(first, l, i, current, rest);
      MembersDone(rest, format, depth, done);
    }

    /** The brace and, in a formatted print, the line end; one level down. */
    method OpenObject(ghost text: bytes) returns (ok: bool)
      requires Ready(text)
      modifies this, buffer, heap
      ensures ok ==> old(offset) <= offset && depth == old(depth) + 1
      ensures WithinCapacity()
      ensures buffer == old(buffer) || buffer == null || fresh(buffer)
      ensures var t := [LEFT_BRACE] + When(format, LF);
              && (ok ==> Ready(text + t))
              && (!ok ==> Refused(|text| + |t| + 2))
    {
      var brace := [LEFT_BRACE] + When(format, LF);
      ok := Append(brace, |brace| + 1, false, text);
      if ok {
        depth := depth + 1;
      }
    }

    /** The brace and the members, one level down. */
    method PrintInside(item: Node, ghost s: Shape, ghost members: Members, ghost text: bytes) returns (ok: bool)
      requires Ready(text) && PrintableMembers(members)
      requires MembersSay(item.child, s.kids, 0, item.child, members) && Apart(TextSets(s.kids))
      modifies this, buffer, heap
      ensures ok ==> old(offset) <= offset && depth == old(depth) + 1
      ensures WithinCapacity()
      ensures buffer == old(buffer) || buffer == null || fresh(buffer)
      ensures var (open, t) := ([LEFT_BRACE] + When(format, LF), MembersText(members, format, old(depth) + 1));
              && (ok ==> Ready(text + open + t))
              && (!ok ==> Refused(|text| + |open| + |t| + 2))
      decreases s, 0
    {
      hide Linked, NodesOf, NodeSet, NodeSets, Inner, TextSet, TextSets, Says, Walking, ItemsSay, MembersSay;
      hide TreeOf, ItemsOf, MembersOf, ImageOf, Images, Shaped, AllShaped, Readable, AllReadable;
      hide MembersText, When, PrintableMembers;
      AllAllocated(s.kids);
      ok := OpenObject(text);
      if ok {
        ok := PrintMembers(item.child, s.kids, members, text + ([LEFT_BRACE] + When(format, LF)));
      }
    }

    /** print_object */
    method PrintObject(item: Node, ghost s: Shape, ghost members: Members, ghost text: bytes) returns (ok: bool)
      requires Ready(text) && PrintableMembers(members)
      requires MembersSay(item.child, s.kids, 0, item.child, members) && Apart(TextSets(s.kids))
      modifies this, buffer, heap
      ensures ok ==> old(offset) <= offset
      ensures (ok ==> depth == old(depth)) && WithinCapacity()
      ensures buffer == old(buffer) || buffer == null || fresh(buffer)
      ensures var t := ObjectText(members, format, old(depth));
              && (noalloc ==> ok == (|text| + |t| + 2 <= length))
              && (!ok ==> Refused(|text| + |t| + 2))
              && (ok ==> Holds(text + t))
      decreases s, 1
    {
      hide Linked, NodesOf, NodeSet, NodeSets, Inner, TextSet, TextSets, Says, Walking, ItemsSay, MembersSay;
      hide TreeOf, ItemsOf, MembersOf, ImageOf, Images, Shaped, AllShaped, Readable, AllReadable;
      hide ValueText, MembersText, When, Indent, Printable, PrintableMembers;
      ObjectPieces(members, format, depth, text);
      ghost var open, t := [LEFT_BRACE] + When(format, LF), MembersText(members, format, depth + 1);
      ok := PrintInside(item, s, members, text);
      if ok {
        ok := CloseObject(text + open + t);
      }
    }

    /** strlen from the offset; `end` is where the terminator is. */
    method UpdateOffset(ghost end: nat)
      requires buffer != null && offset <= end < buffer.Length && buffer[end] == NUL
      requires forall i | offset <= i < end :: buffer[i] != NUL
      modifies this`offset
      ensures offset == end
    {
      while buffer[offset] != NUL
        invariant offset <= end
        invariant forall i | offset <= i < end :: buffer[i] != NUL
        decreases end - offset
      {
        offset := offset + 1;
      }
    }
  }

  // ---------- How the texts are put together ----------

  function ObjectText(members: Members, fmt: bool, depth: nat): bytes
    requires PrintableMembers(members)
  {
    ValueText(Object(members), fmt, depth)
  }

  function MemberText(members: Members, fmt: bool, depth: nat): bytes
    requires PrintableMembers(members) && members.Member?
  {
    KeyText(members.key, fmt, depth) + ValueText(members.value, fmt, depth) + MemberSeparator(members.rest, fmt)
  }

  /** The three pieces of the text of an array. */
  lemma ArrayPieces(items: Items, fmt: bool, depth: nat, text: bytes)
    requires PrintableItems(items)
    ensures var (v, inner) := (ValueText(Array(items), fmt, depth), ItemsText(items, fmt, depth + 1));
            text + v == text + [LEFT_BRACKET] + inner + [RIGHT_BRACKET] && |v| == 2 + |inner|
  {
    var inner := ItemsText(items, fmt, depth + 1);
    Assoc(text, [LEFT_BRACKET] + inner, [RIGHT_BRACKET]);
    Assoc(text, [LEFT_BRACKET], inner);
  }

  lemma ItemsProgress(items: Items, fmt: bool, depth: nat, done: bytes)
    requires PrintableItems(items) && items.Item?
    ensures var t := ValueText(items.head, fmt, depth) + ItemSeparator(items.tail, fmt);
            done + ItemsText(items, fmt, depth) == done + t + ItemsText(items.tail, fmt, depth)
  {
    Assoc(done, ValueText(items.head, fmt, depth) + ItemSeparator(items.tail, fmt), ItemsText(items.tail, fmt, depth));
  }

  lemma ItemsDone(items: Items, fmt: bool, depth: nat, done: bytes)
    requires items == NoItems
    ensures PrintableItems(items) && done + ItemsText(items, fmt, depth) == done
  {
  }

  lemma MembersDone(members: Members, fmt: bool, depth: nat, done: bytes)
    requires members == NoMembers
    ensures PrintableMembers(members) && done + MembersText(members, fmt, depth) == done
  {
  }

  lemma NothingQuoted()
    ensures Quoted([]) == [QUOTE, QUOTE]
  {
  }

  /** The three pieces of the text of an object, behind what is there already. */
  lemma ObjectPieces(members: Members, fmt: bool, depth: nat, text: bytes)
    requires PrintableMembers(members)
    ensures var (v, open) := (ValueText(Object(members), fmt, depth), [LEFT_BRACE] + When(fmt, LF));
            var (inner, close) := (MembersText(members, fmt, depth + 1), Indent(fmt, depth) + [RIGHT_BRACE]);
            text + v == text + open + inner + close && |v| == |open| + |inner| + |close|
  {
    var open := [LEFT_BRACE] + When(fmt, LF);
    var inner := MembersText(members, fmt, depth + 1);
    var i := Indent(fmt, depth);
    Assoc(open + inner, i, [RIGHT_BRACE]);
    Assoc(text, open + inner, i + [RIGHT_BRACE]);
    Assoc(text, open, inner);
  }

  lemma KeyGroups(key: bytes, fmt: bool, depth: nat, text: bytes)
    ensures text + KeyText(key, fmt, depth) == text + Indent(fmt, depth) + Quoted(key) + ([COLON] + When(fmt, TAB))
  {
    var i := Indent(fmt, depth);
    var q := Quoted(key);
    var w := When(fmt, TAB);
    Assoc(i + q, [COLON], w);
    Assoc(text, i, q);
    Assoc(text, i + q, [COLON] + w);
  }

  /** The three pieces of the text of a member. */
  lemma MemberPieces(member: Members, fmt: bool, depth: nat, text: bytes)
    requires PrintableMembers(member) && member.Member?
    ensures var (q, t) := (KeyText(member.key, fmt, depth), ValueText(member.value, fmt, depth));
            var separator := When(member.rest != NoMembers, COMMA) + When(fmt, LF);
            && text + MemberText(member, fmt, depth) == text + q + t + separator
            && |MemberText(member, fmt, depth)| == |q| + |t| + |separator|
  {
    hide KeyText, ValueText, When;
    var q, t := KeyText(member.key, fmt, depth), ValueText(member.value, fmt, depth);
    Assoc(text, q, t);
    Assoc(text, q + t, MemberSeparator(member.rest, fmt));
  }

  lemma MembersProgress(members: Members, fmt: bool, depth: nat, done: bytes)
    requires PrintableMembers(members) && members.Member?
    ensures done + MembersText(members, fmt, depth)
         == done + MemberText(members, fmt, depth) + MembersText(members.rest, fmt, depth)
  {
    Assoc(done, MemberText(members, fmt, depth), MembersText(members.rest, fmt, depth));
  }

  /** The switch of print_string_ptr: the byte behind the backslash. */
  method EscapeLetter(b: byte) returns (letter: byte)
    ensures letter == if HasShortEscape(b) then ShortLetter(b) else LOWER_U
  {
    if b == BACKSLASH {
      letter := BACKSLASH;
    } else if b == QUOTE {
      letter := QUOTE;
    } else if b == BACKSPACE {
      letter := LOWER_B;
    } else if b == FORM_FEED {
      letter := LOWER_F;
    } else if b == LF {
      letter := LOWER_N;
    } else if b == CR {
      letter := LOWER_R;
    } else if b == TAB {
      letter := LOWER_T;
    } else {
      letter := LOWER_U;
    }
  }

  /** The counting pass of print_string_ptr. */
  method CountEscapes(s: bytes) returns (n: nat)
    ensures n == EscapeCharacters(s)
  {
    n := 0;
    for i := 0 to |s|
      invariant n == EscapeCharacters(s[..i])
    {
      CostAppend(s[..i], s[i]);
      assert s[..i + 1] == s[..i] + [s[i]];
      if s[i] == QUOTE || s[i] == BACKSLASH || s[i] == BACKSPACE || s[i] == FORM_FEED || s[i] == LF || s[i] == CR
          || s[i] == TAB {
        n := n + 1;
      } else if s[i] < 32 {
        n := n + 5;
      }
    }
    assert s[..|s|] == s;
  }

  /** The escaped text grows by one escaped byte, and never past the escaped whole. */
  lemma EscapeStep(s: bytes, i: nat)
    requires i < |s|
    ensures Escape(s[..i + 1]) == Escape(s[..i]) + EscapeByte(s[i])
    ensures |Escape(s[..i + 1])| <= |Escape(s)|
  {
    EscapeOne(s[i]);
    hide Escape, EscapeByte;
    assert s[..i + 1] == s[..i] + [s[i]];
    EscapeAppend(s[..i], [s[i]]);
    assert s == s[..i + 1] + s[i + 1..];
    EscapeAppend(s[..i + 1], s[i + 1..]);
  }

  lemma EscapeOne(b: byte)
    ensures Escape([b]) == EscapeByte(b)
  {
    hide EscapeByte;
    assert Escape([b]) == EscapeByte(b) + Escape([]);
    assert EscapeByte(b) + [] == EscapeByte(b);
  }

  // ---------- The entry points ----------

  /** cJSON_PrintPreallocated: it succeeds exactly when the buffer has one byte more than the
      text, or, for anything but a number, two; what lies at or past `len` is never written. */
  method PrintPreallocated(heap: Heap, item: Node?, block: array<byte>, len: int, fmt: bool, ghost s: Shape,
      ghost v: Json)
    returns (ok: bool)
    requires Printable(v) && (item != null ==> Says(item, s, v)) && block !in TextSet(s)
    requires len <= block.Length && len <= 0x7FFF_FFFF
    modifies heap, block
    ensures heap.live == old(heap.live)
    ensures ok <==> item != null && len >= |Text(v, fmt)| + if v.Number? then 1 else 2
    ensures item != null && len >= |Text(v, fmt)| + 2 ==> ok
    ensures len <= |Text(v, fmt)| ==> !ok
    ensures ok ==> block[..|Text(v, fmt)|] == Text(v, fmt) && block[|Text(v, fmt)|] == NUL
    ensures forall i | 0 <= i < block.Length && len <= i :: block[i] == old(block[i])
  {
    if len < 0 || item == null {
      return false;
    }
    hide ValueText, Says, TextSet;
    Allocated(s);
    AllAllocated(s.kids);
    var p := new PrintBuffer(heap, block, len, true, fmt);
    ok := p.PrintValue(item, s, v, []);
    assert [] + Text(v, fmt) == Text(v, fmt);
  }

  /** The end of print: the text in a block of its own, or null. With a reallocate hook the buffer
      itself is cut to the length of the printbuffer; when that is refused, `kept` is the buffer,
      which nobody frees any more. */
  method HandOver(p: PrintBuffer, ghost t: bytes) returns (printed: array?<byte>, ghost kept: set<object>)
    requires p.Holds(t) && NulFree(t) && !p.noalloc
    modifies p`offset, p.heap
    ensures printed != null ==> fresh(printed) && |t| < printed.Length && printed[..|t|] == t && printed[|t|] == NUL
    ensures printed != null ==> p.heap.live == p.others + {printed}
    ensures printed == null ==> p.heap.refused && p.heap.live == p.others + kept
    ensures kept == if printed == null && p.heap.reallocates then Strings(p.buffer) else {}
  {
    assert [] + t == t;
    p.Advance([], t);
    kept := {};
    if p.heap.reallocates {
      printed := p.heap.Reallocate(p.buffer, p.length);
      if printed == null {
        kept := Strings(p.buffer);
      }
    } else {
      printed := p.heap.Allocate(p.offset + 1);
      if printed != null {
        forall i | 0 <= i < p.offset + 1 && i < p.length {
          printed[i] := p.buffer[i];
        }
        printed[p.offset] := NUL;
      }
      p.heap.Deallocate(p.buffer);
    }
  }

  /** print: the text of cJSON_Print and cJSON_PrintUnformatted in a block of its own. The
      printbuffer starts with a length of 0, so the first reservation already reallocates. */
  method Print(heap: Heap, item: Node, fmt: bool, ghost s: Shape, ghost v: Json)
    returns (printed: array?<byte>, ghost kept: set<object>)
    requires Printable(v) && Says(item, s, v)
    modifies heap
    ensures printed != null ==>
              && fresh(printed) && |Text(v, fmt)| < printed.Length
              && printed[..|Text(v, fmt)|] == Text(v, fmt) && printed[|Text(v, fmt)|] == NUL
    ensures heap.live == old(heap.live) + Strings(printed) + kept
    ensures printed == null ==> heap.refused || |Text(v, fmt)| + 2 > LONG_MAX
    ensures kept != {} ==> heap.reallocates && heap.refused && printed == null && exists b :: kept == {b}
    ensures fresh(kept)
  {
    hide ValueText, Says, TextSet;
    Allocated(s);
    AllAllocated(s.kids);
    kept := {};
    var block := heap.Allocate(256);
    if block == null {
      return null, kept;
    }
    var p := new PrintBuffer(heap, block, 0, false, fmt);
    assert block[..0] == [];
    var ok := p.PrintValue(item, s, v, []);
    assert [] + Text(v, fmt) == Text(v, fmt);
    if !ok {
      if p.buffer != null {
        heap.Deallocate(p.buffer);
      }
      return null, kept;
    }
    ValueTextNulFree(v, fmt, 0);
    printed, kept := HandOver(p, Text(v, fmt));
  }

  /** cJSON_PrintBuffered: the buffer starts with `prebuffer` bytes and is handed out as it is. With
      no byte at all, the manual copy of a growing buffer would read one behind it. */
  method PrintBuffered(heap: Heap, item: Node, prebuffer: int, fmt: bool, ghost s: Shape, ghost v: Json)
    returns (printed: array?<byte>)
    requires Printable(v) && Says(item, s, v)
    requires prebuffer <= 0x7FFF_FFFF && (prebuffer != 0 || heap.reallocates)
    modifies heap
    ensures printed != null ==>
              && fresh(printed) && |Text(v, fmt)| < printed.Length
              && printed[..|Text(v, fmt)|] == Text(v, fmt) && printed[|Text(v, fmt)|] == NUL
    ensures heap.live == old(heap.live) + Strings(printed)
    ensures printed == null ==> prebuffer < 0 || heap.refused || |Text(v, fmt)| + 2 > LONG_MAX
  {
    hide ValueText, Says, TextSet;
    Allocated(s);
    AllAllocated(s.kids);
    if prebuffer < 0 {
      return null;
    }
    var block := heap.Allocate(prebuffer);
    if block == null {
      return null;
    }
    var p := new PrintBuffer(heap, block, prebuffer, false, fmt);
    assert block[..0] == [];
    var ok := p.PrintValue(item, s, v, []);
    assert [] + Text(v, fmt) == Text(v, fmt);
    if !ok {
      if p.buffer != null {
        heap.Deallocate(p.buffer);
      }
      return null;
    }
    return p.buffer;
  }
}
