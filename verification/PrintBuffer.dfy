/** The printer into a growing buffer: it never measures, and finds the end of what a nested call
    wrote with `strlen`. */
module PrintBuffers {
  import opened Json
  import opened Text
  import opened Strings
  import opened Printer
  import opened NextPowers

  class PrintBuffer {
    var buffer: array<char>
    var length: nat
    var offset: nat

    ghost predicate Valid()
      reads this
    {
      buffer.Length == length && offset <= length
    }

    constructor (prebuffer: nat)
      ensures Valid() && fresh(buffer) && length == prebuffer && offset == 0
    {
      buffer := new char[prebuffer];
      length := prebuffer;
      offset := 0;
    }

    /** `ensure`: room for `needed` more characters; what was written stays. */
    method Ensure(needed: nat) returns (ptr: nat)
      requires Valid()
      modifies this`buffer, this`length
      ensures Valid() && ptr == offset && offset + needed <= length
      ensures buffer == old(buffer) || fresh(buffer)
      ensures old(length) <= length && buffer[..old(length)] == old(buffer[..length])
      ensures length == if old(offset) + needed <= old(length) then old(length) else NextPower(old(offset) + needed, 1)
    {
      ptr := offset;
      if needed + offset > length {
        var newsize := NextPower(needed + offset, 1);
        var newbuffer := new char[newsize];
        var w := PutText(newbuffer, 0, buffer[..length]);
        length := newsize;
        buffer := newbuffer;
      }
    }

    /** `update`: where the string at the offset ends. */
    method Update(ghost t: string) returns (end: nat)
      requires Valid() && Spells(buffer, offset, t) && NoNul(t)
      ensures end == offset + |t|
    {
      end := Strlen(buffer, offset, t);
      end := offset + end;
    }

    /** Makes room for `t` and `spare` more, and writes `t` at the offset, with a terminator if it has room. */
    method Place(t: string, spare: nat)
      requires Valid()
      modifies this`buffer, this`length, buffer
      ensures Valid() && (buffer == old(buffer) || fresh(buffer))
      ensures offset + |t| + spare <= length && buffer[..offset + |t|] == old(buffer[..offset]) + t
      ensures spare > 0 ==> buffer[offset + |t|] == '\0'
    {
      var ptr := Ensure(|t| + spare);
      assert buffer[..offset] == old(buffer[..offset]) by {
        assert buffer[..offset] == buffer[..old(length)][..offset];
      }
      var w := PutText(buffer, ptr, t);
      if spare > 0 { buffer[w] := '\0'; }
    }

    /** The same, and the offset moves behind what was written. */
    method Append(t: string, spare: nat)
      requires Valid()
      modifies this, buffer
      ensures Valid() && (buffer == old(buffer) || fresh(buffer))
      ensures offset == old(offset) + |t| && buffer[..offset] == old(buffer[..offset]) + t
    {
      Place(t, spare);
      offset := offset + |t|;
    }

    /** `print_string_ptr` with a buffer. */
    method PutString(str: string)
      requires Valid() && NoNul(str)
      modifies this`buffer, this`length, buffer
      ensures Valid() && (buffer == old(buffer) || fresh(buffer))
      ensures buffer[..offset] == old(buffer[..offset]) && Spells(buffer, offset, Quote(str))
    {
      var flag := NeedsEscapes(str);
      var len := |str|;
      if flag { len := Measure(str); }
      var ptr := Ensure(len + 3);
      assert buffer[..offset] == old(buffer[..offset]) by {
        assert buffer[..offset] == buffer[..old(length)][..offset];
      }
      PutQuoted(buffer, ptr, str, flag);
    }

    /** A printed string with the offset moved behind it. */
    method AppendString(str: string)
      requires Valid() && NoNul(str)
      modifies this, buffer
      ensures Valid() && (buffer == old(buffer) || fresh(buffer))
      ensures offset == old(offset) + |Quote(str)| && buffer[..offset] == old(buffer[..offset]) + Quote(str)
    {
      PutString(str);
      QuoteNoNul(str);
      assert buffer[..offset + |Quote(str)|] == buffer[..offset] + buffer[offset..offset + |Quote(str)|];
      offset := Update(Quote(str));
    }

    /** What a nested call wrote starts behind `base`; the offset is in it or right after it. */
    ghost predicate Printed(base: string, text: string)
      reads this, buffer
    {
      && |base| <= offset <= |base| + |text| && offset <= buffer.Length
      && buffer[..|base|] == base && Spells(buffer, |base|, text)
    }

    /** The last piece of a text, terminated; the offset stays in front of it. */
    method Finish(t: string, spare: nat, ghost base: string, ghost text: string)
      requires Valid() && 0 < spare && |base| <= offset && buffer[..offset] + t == base + text
      modifies this`buffer, this`length, buffer
      ensures Valid() && (buffer == old(buffer) || fresh(buffer))
      ensures Printed(base, text)
    {
      ghost var was := buffer[..offset];
      assert |was + t| == |base + text|;
      Place(t, spare);
      SpellsAfter(buffer, |base|, base, text);
    }

    /** `print_array`: the closing bracket is written but the offset stays in front of it. */
    method PrintArray(xs: seq<Json>, depth: nat, fmt: bool) returns (at: nat)
      requires Valid() && Printable(Array(xs)) && IntsFit(Array(xs))
      modifies this, buffer
      ensures Valid() && (buffer == old(buffer) || fresh(buffer)) && at == old(offset)
      ensures Printed(old(buffer[..offset]), Print(Array(xs), depth, fmt))
      decreases xs, 2
    {
      ghost var base, text := buffer[..offset], Print(Array(xs), depth, fmt);
      at := offset;
      if xs == [] {
        Finish("[]", 1, base, text);
      } else {
        ArrayText(base, xs, depth, fmt);
        hide Print, PrintItems, Printed;
        Append("[", 0);
        AppendItems(xs, depth + 1, fmt);
        Finish("]", 1, base, text);
      }
    }

    /** One element and, unless it is the last, a comma. */
    method AppendItem(x: Json, last: bool, depth: nat, fmt: bool)
      requires Valid() && Printable(x) && IntsFit(x)
      modifies this, buffer
      ensures Valid() && (buffer == old(buffer) || fresh(buffer)) && offset >= old(offset)
      ensures buffer[..offset] == old(buffer[..offset]) + (Print(x, depth, fmt) + Separator(last, fmt))
      decreases x, 5
    {
      hide Print;
      ghost var base := buffer[..offset];
      AppendValue(x, depth, fmt);
      Assoc(base, Print(x, depth, fmt), Separator(last, fmt));
      if !last {
        Append("," + When(fmt, " "), 1);
      }
    }

    method AppendItems(xs: seq<Json>, depth: nat, fmt: bool)
      requires Valid() && Printable(Array(xs)) && IntsFit(Array(xs))
      modifies this, buffer
      ensures Valid() && (buffer == old(buffer) || fresh(buffer)) && offset >= old(offset)
      ensures buffer[..offset] == old(buffer[..offset]) + PrintItems(xs, depth, fmt)
      decreases xs, 1
    {
      ghost var all := buffer[..offset] + PrintItems(xs, depth, fmt);
      assert xs[0..] == xs;
      assert PrintItems([], depth, fmt) == "";
      hide Print, PrintItems, Printable, IntsFit, Separator;
      var i := 0;
      while i < |xs|
        invariant Valid() && (buffer == old(buffer) || fresh(buffer)) && i <= |xs| && offset >= old(offset)
        invariant buffer[..offset] + PrintItems(xs[i..], depth, fmt) == all
      {
        ItemsStep(buffer[..offset], xs, i, depth, fmt);
        ItemHolds(xs, i);
        AppendItem(xs[i], i == |xs| - 1, depth, fmt);
        i := i + 1;
      }
      assert buffer[..offset] + "" == buffer[..offset];
    }

    /** A printed value with the offset moved behind it. */
    method AppendValue(v: Json, depth: nat, fmt: bool)
      requires Valid() && Printable(v) && IntsFit(v)
      modifies this, buffer
      ensures Valid() && (buffer == old(buffer) || fresh(buffer))
      ensures offset == old(offset) + |Print(v, depth, fmt)|
      ensures buffer[..offset] == old(buffer[..offset]) + Print(v, depth, fmt)
      decreases v, 4
    {
      ghost var base, text := buffer[..offset], Print(v, depth, fmt);
      PrintNoNul(v, depth, fmt);
      hide Print, NoNul, Printable, IntsFit;
      var at := PrintValue(v, depth, fmt);
      PrintedTail(base, text);
      offset := Update(text[offset - |base|..]);
    }

    /** From the offset on, the buffer spells the part of the text that is left. */
    lemma PrintedTail(base: string, text: string)
      requires Valid() && Printed(base, text) && NoNul(text)
      ensures var k := offset - |base|; Spells(buffer, offset, text[k..]) && NoNul(text[k..])
      ensures |base| + |text| < buffer.Length && buffer[..|base| + |text|] == base + text
    {
      var n := |base| + |text|;
      assert buffer[..n] == buffer[..|base|] + buffer[|base|..n];
      assert buffer[offset..n] == buffer[|base|..n][offset - |base|..];
    }

    /** One member: tabs, name, colon, value, and a comma unless it is the last. */
    method AppendMember(m: Entry<Json>, last: bool, depth: nat, fmt: bool)
      requires Valid() && NoNul(m.name) && Printable(m.item) && IntsFit(m.item)
      modifies this, buffer
      ensures Valid() && (buffer == old(buffer) || fresh(buffer)) && offset >= old(offset)
      ensures buffer[..offset] == old(buffer[..offset]) + PrintMember(m, depth, fmt, last)
      decreases m
    {
      MemberInPieces(buffer[..offset], m, depth, fmt, last);
      hide *;
      if fmt { Append(Tabs(depth), 0); }
      AppendString(m.name);
      Append(":" + When(fmt, "\t"), 0);
      AppendValue(m.item, depth, fmt);
      Append(When(!last, ",") + When(fmt, "\n"), 1);
    }

    method AppendMembers(ms: seq<Entry<Json>>, depth: nat, fmt: bool)
      requires Valid() && Printable(Object(ms)) && IntsFit(Object(ms))
      modifies this, buffer
      ensures Valid() && (buffer == old(buffer) || fresh(buffer)) && offset >= old(offset)
      ensures buffer[..offset] == old(buffer[..offset]) + PrintMembers(ms, depth, fmt)
      decreases ms, 1
    {
      hide *;
      OffsetInside();
      ghost var all := buffer[..offset] + PrintMembers(ms, depth, fmt);
      WholeList(ms, depth, fmt);
      var i := 0;
      while i < |ms|
        invariant Valid() && (buffer == old(buffer) || fresh(buffer)) && i <= |ms| && offset >= old(offset) && offset <= buffer.Length
        invariant buffer[..offset] + PrintMembers(ms[i..], depth, fmt) == all
      {
        MembersStep(buffer[..offset], ms, i, depth, fmt);
        MemberHolds(ms, i);
        AppendMember(ms[i], i == |ms| - 1, depth, fmt);
        OffsetInside();
        i := i + 1;
      }
      assert buffer[..offset] + "" == buffer[..offset];
    }

    lemma OffsetInside()
      requires Valid()
      ensures offset <= buffer.Length
    {
    }

    /** `print_object`. The result indexes the printed text only when nothing is formatted or the
        object starts the buffer: the loop over the closing tabs reuses the variable. */
    method PrintObject(ms: seq<Entry<Json>>, depth: nat, fmt: bool) returns (at: nat)
      requires Valid() && Printable(Object(ms)) && IntsFit(Object(ms))
      modifies this, buffer
      ensures Valid() && (buffer == old(buffer) || fresh(buffer))
      ensures at == if ms != [] && fmt then depth else old(offset)
      ensures Printed(old(buffer[..offset]), Print(Object(ms), depth, fmt))
      decreases ms, 2
    {
      ghost var base, text := buffer[..offset], Print(Object(ms), depth, fmt);
      at := offset;
      ObjectInPieces(base, ms, depth, fmt);
      hide *;
      if ms == [] {
        Finish("{" + When(fmt, "\n" + Tabs(depth)) + "}", 1, base, text);
      } else {
        Append("{" + When(fmt, "\n"), 1);
        AppendMembers(ms, depth + 1, fmt);
        if fmt { at := depth; }
        Finish(When(fmt, Tabs(depth)) + "}", 1, base, text);
      }
    }

    /** `print_value`. */
    method PrintValue(v: Json, depth: nat, fmt: bool) returns (at: nat)
      requires Valid() && Printable(v) && IntsFit(v)
      modifies this, buffer
      ensures Valid() && (buffer == old(buffer) || fresh(buffer))
      ensures at == if v.Object? && v.members != [] && fmt then depth else old(offset)
      ensures Printed(old(buffer[..offset]), Print(v, depth, fmt))
      decreases v, 3
    {
      ghost var base, text := buffer[..offset], Print(v, depth, fmt);
      at := offset;
      match v {
        case Null => Finish("null", 1, base, text);
        case False => Finish("false", 1, base, text);
        case True => Finish("true", 1, base, text);
        case Number(n) =>
          IntTextShort(n);
          Finish(IntText(n), if n == 0 then 1 else 21 - |IntText(n)|, base, text);
        case String(s) => PutString(s);
        case Array(xs) => at := PrintArray(xs, depth, fmt);
        case Object(ms) => at := PrintObject(ms, depth, fmt);
      }
    }
  }

  lemma ArrayText(base: string, xs: seq<Json>, depth: nat, fmt: bool)
    requires xs != []
    ensures base + Print(Array(xs), depth, fmt) == base + "[" + PrintItems(xs, depth + 1, fmt) + "]"
  {
    var body := PrintItems(xs, depth + 1, fmt);
    Assoc(base, "[", body);
    Assoc(base, "[" + body, "]");
  }

  lemma MemberInPieces(base: string, m: Entry<Json>, depth: nat, fmt: bool, last: bool)
    ensures base + PrintMember(m, depth, fmt, last)
         == (if fmt then base + Tabs(depth) else base) + Quote(m.name) + (":" + When(fmt, "\t")) + Print(m.item, depth, fmt)
            + (When(!last, ",") + When(fmt, "\n"))
  {
    hide Quote, Print;
    var w, q, t, p := When(fmt, Tabs(depth)), Quote(m.name), When(fmt, "\t"), Print(m.item, depth, fmt);
    var c, n := When(!last, ","), When(fmt, "\n");
    MemberText(base, w, q, t, p, c, n);
    assert base + "" == base;
    Assoc(base + w + q, ":", t);
    Assoc(base + w + q + ":" + t + p, c, n);
  }

  lemma ObjectInPieces(base: string, ms: seq<Entry<Json>>, depth: nat, fmt: bool)
    ensures var text := Print(Object(ms), depth, fmt);
      && (ms == [] ==> text == "{" + When(fmt, "\n" + Tabs(depth)) + "}")
      && base + text == base + ("{" + When(fmt, "\n")) + PrintMembers(ms, depth + 1, fmt) + (When(fmt, Tabs(depth)) + "}")
  {
    var body, tabs := PrintMembers(ms, depth + 1, fmt), When(fmt, Tabs(depth));
    ObjectText(ms, depth, fmt);
    Assoc(base, "{" + When(fmt, "\n"), body);
    Assoc(base, "{" + When(fmt, "\n") + body, tabs + "}");
    if ms == [] {
      assert "{" + When(fmt, "\n") + "" + tabs + "}" == "{" + When(fmt, "\n" + Tabs(depth)) + "}";
    }
  }

  /** `cJSON_PrintBuffered`, from any starting size. */
  method PrintBuffered(v: Json, prebuffer: nat, fmt: bool) returns (out: array<char>, at: nat)
    requires Printable(v) && IntsFit(v)
    ensures at == 0 && Spells(out, at, Print(v, 0, fmt))
  {
    hide Print;
    var p := new PrintBuffer(prebuffer);
    at := p.PrintValue(v, 0, fmt);
    out := p.buffer;
  }
}
