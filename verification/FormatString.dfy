/** The format interpreter: one pass over the format, writing into a buffer of fixed length. */
module FormatString {
  import opened Basics
  import opened Text
  import opened Numerals
  import opened NumberLayout
  import opened FormatSyntax
  import opened FormatRendering
  import IntPrinter
  import FloatPrinter

  // `format` is the rest of the format behind the pointer; "" stands for the terminator.

  method ReadFlags(format0: string) returns (flags: Flags, format: string)
    ensures (flags, format) == ScanFlags(format0, NO_FLAGS)
  {
    flags, format := NO_FLAGS, format0;
    var n := true;
    while n
      invariant ScanFlags(format0, NO_FLAGS) == if n then ScanFlags(format, flags) else (flags, format)
      decreases n, |format|
    {
      if format != "" && IsFlag(format[0]) {
        flags, format := SetFlag(flags, format[0]), format[1..];
      } else {
        n := false;
      }
    }
  }

  method ReadNumber(format0: string) returns (n: nat, format: string)
    ensures (n, format) == ScanNumber(format0, 0)
  {
    n, format := 0, format0;
    while format != "" && IsDigit(format[0])
      invariant ScanNumber(format0, 0) == ScanNumber(format, n)
      decreases |format|
    {
      n, format := 10 * n + DigitValue(format[0]), format[1..];
    }
  }

  method ReadAmount(format0: string) returns (amount: Amount, format: string)
    ensures (amount, format) == ScanAmount(format0)
  {
    amount, format := Absent, format0;
    if format != "" && IsDigit(format[0]) {
      var n;
      n, format := ReadNumber(format);
      amount := Number(n);
    } else if format != "" && format[0] == '*' {
      amount, format := Star, format[1..];
    }
  }

  method ReadPrecision(format0: string) returns (amount: Amount, format: string)
    ensures (amount, format) == ScanPrecision(format0)
  {
    amount, format := Absent, format0;
    if format != "" && format[0] == '.' {
      amount, format := ReadAmount(format[1..]);
      if amount == Absent { amount := Number(0); }
    }
  }

  /** The flags, width and precision behind a '%' and the conversion character. */
  method ReadField(format0: string) returns (d: Directive, format: string)
    ensures (d, format) == ScanField(format0)
  {
    var flags, width, prec;
    flags, format := ReadFlags(format0);
    width, format := ReadAmount(format);
    prec, format := ReadPrecision(format);
    if format == "" {
      d := Dangling;
    } else {
      d, format := Field(flags, width, prec, format[0]), format[1..];
    }
  }

  /** The copying loop of %s and %c. */
  method PutString(buffer: array<char>, at: nat, text: string, room: nat) returns (idx: nat)
    requires at + room <= buffer.Length
    modifies buffer
    ensures at <= idx <= at + room
    ensures buffer[..idx] == old(buffer[..at]) + Take(text, room)
  {
    idx := at;
    var i := 0;
    while i < |text| && i < room
      invariant i <= |text| && i <= room && idx == at + i
      invariant buffer[..idx] == old(buffer[..at]) + text[..i]
    {
      idx := Put(buffer, idx, text[i]);
      i := i + 1;
    }
  }

  /** Justified text cut off. Padding behind the text is left only if the room reaches that far. */
  lemma TakeText(text: string, spec: Spec, room: nat)
    ensures var pad := Min(Max(spec.width - |text|, 0), room);
            Take(JustifyText(text, spec), room)
            == if !spec.flags.left then Spaces(pad) + Take(text, room - pad)
               else if |text| >= room then Take(text, room)
               else Take(text, room) + Spaces(Min(spec.width, room) - |text|)
  {
  }

  method PrintTextLeft(buffer: array<char>, at: nat, text: string, room: nat, spec: Spec) returns (idx: nat)
    requires at + room <= buffer.Length && spec.flags.left
    modifies buffer
    ensures at <= idx <= at + room
    ensures buffer[..idx] == old(buffer[..at]) + Take(JustifyText(text, spec), room)
  {
    hide Repeat, Take, JustifyText;
    TakeText(text, spec, room);
    idx := PutString(buffer, at, text, room);
    if idx < at + room {
      Associates(buffer[..at], Take(text, room), Spaces(Min(spec.width, room) - |text|));
      idx := PutSpaces(buffer, idx, |text|, spec.width, room);
    }
  }

  method PrintTextRight(buffer: array<char>, at: nat, text: string, room: nat, spec: Spec) returns (idx: nat)
    requires at + room <= buffer.Length && !spec.flags.left
    modifies buffer
    ensures at <= idx <= at + room
    ensures buffer[..idx] == old(buffer[..at]) + Take(JustifyText(text, spec), room)
  {
    hide Repeat, Take, JustifyText;
    TakeText(text, spec, room);
    ghost var pad := Min(Max(spec.width - |text|, 0), room);
    Associates(buffer[..at], Spaces(pad), Take(text, room - pad));
    idx := PutSpaces(buffer, at, 0, Max(spec.width - |text|, 0), room);
    idx := PutString(buffer, idx, text, room - (idx - at));
  }

  /** %s and %c: padding on one side of the text, cut off where the room ends. */
  method PrintText(buffer: array<char>, at: nat, text: string, room: nat, spec: Spec) returns (idx: nat)
    requires at + room <= buffer.Length
    modifies buffer
    ensures at <= idx <= at + room
    ensures buffer[..idx] == old(buffer[..at]) + Take(JustifyText(text, spec), room)
  {
    if spec.flags.left {
      idx := PrintTextLeft(buffer, at, text, room, spec);
    } else {
      idx := PrintTextRight(buffer, at, text, room, spec);
    }
  }

  /** One conversion. */
  method PrintField(buffer: array<char>, at: nat, spec: Spec, arg: Arg, room: nat) returns (idx: nat)
    requires room > 0 && at + room <= buffer.Length
    requires BoundedField(spec, arg, room).Text?
    modifies buffer
    ensures at <= idx <= at + room
    ensures buffer[..idx] == old(buffer[..at]) + BoundedField(spec, arg, room).s
  {
    if IsInt(spec.conv) {
      idx := IntPrinter.PrintInt(buffer, at, Magnitude(spec, arg.cell), Negative(spec, arg.cell), Base(spec.conv), room,
                                 spec.prec, spec.width, IntFlags(spec));
    } else if spec.conv == 'f' || spec.conv == 'F' {
      CellFloatIsDyadic(arg.cell);
      idx := FloatPrinter.PrintFloat(buffer, at, CellToFloat(arg.cell), room, spec.prec, spec.width, spec.flags);
    } else if spec.conv == 'c' {
      idx := PrintText(buffer, at, [if arg.text == "" then '\0' else arg.text[0]], room, spec);
    } else if spec.conv == 's' {
      var text := if spec.flags.precision then arg.text[..Min(|arg.text|, spec.prec)] else arg.text;
      idx := PrintText(buffer, at, text, room, spec);
    } else {
      idx := Put(buffer, at, spec.conv);
    }
  }

  /** One step of the interpreter behind a '%'. A missing parameter ends the run. */
  method Interpret(buffer: array<char>, at: nat, d: Directive, args: seq<Arg>, param: nat, room: nat)
    returns (ok: bool, idx: nat)
    requires param >= 1 && room > 0 && at + room <= buffer.Length
    requires BoundedOne(d, args, param, room) != Undefined
    modifies buffer
    ensures at <= idx <= at + room
    ensures ok <==> BoundedOne(d, args, param, room).Text?
    ensures ok ==> buffer[..idx] == old(buffer[..at]) + BoundedOne(d, args, param, room).s
  {
    if d.Literal? {
      idx := Put(buffer, at, d.c);
      return true, idx;
    }
    var resolved := Resolve(d, args, param);
    if resolved.NoArg? { return false, at; }
    match FieldArg(d, args, param)
    case None => return false, at;
    case Some(arg) =>
      idx := PrintField(buffer, at, resolved.spec, arg, room);
      return true, idx;
  }

  method NextDirective(format: string) returns (d: Directive, rest: string)
    requires format != ""
    ensures (d, rest) == ScanDirective(format)
  {
    if format[0] != '%' {
      d, rest := Literal(format[0]), format[1..];
    } else {
      d, rest := ReadField(format[1..]);
    }
  }

  /** The interpreter's loop: every turn uses up some of the format and, until the buffer is full or a
      parameter is missing, what is written and what is still to come make up the bounded rendering. */
  method FormatFields(buffer: array<char>, bufferLen: nat, format0: string, args: seq<Arg>, param0: nat)
    returns (ok: bool, idx: nat)
    requires param0 >= 1 && bufferLen <= buffer.Length
    requires Bounded(Parse(format0), args, param0, bufferLen) != Undefined
    modifies buffer
    ensures idx <= bufferLen
    ensures Bounded(Parse(format0), args, param0, bufferLen) == if ok then Text(buffer[..idx]) else MissingArg
  {
    hide BoundedOne, ScanDirective, ArgsUsed, Bounded, Parse, Prepend;
    ghost var whole := Bounded(Parse(format0), args, param0, bufferLen);
    var format, param := format0, param0;
    idx := 0;
    PrependNothing(whole);
    assert buffer[..0] == "";
    while idx < bufferLen && format != ""
      invariant idx <= bufferLen && param >= 1
      invariant whole == Prepend(buffer[..idx], Bounded(Parse(format), args, param, bufferLen - idx))
      decreases |format|
    {
      var d, rest := NextDirective(format);
      BoundedStep(format, args, param, bufferLen - idx, buffer[..idx]);
      ok, idx := Interpret(buffer, idx, d, args, param, bufferLen - idx);
      if !ok { return; }
      format, param := rest, param + ArgsUsed(d);
    }
    BoundedEnd(format, args, param, bufferLen - idx, buffer[..idx]);
    ok := true;
  }

  lemma PrependNothing(r: Rendering)
    ensures Prepend("", r) == r
  {
    assert r.Text? ==> "" + r.s == r.s;
  }

  /** One turn of the loop, behind what is written already. */
  lemma BoundedStep(format: string, args: seq<Arg>, param: nat, room: nat, written: string)
    requires format != "" && param >= 1 && room > 0
    requires Prepend(written, Bounded(Parse(format), args, param, room)) != Undefined
    ensures var (d, rest) := ScanDirective(format);
            var whole := Prepend(written, Bounded(Parse(format), args, param, room));
            var first := BoundedOne(d, args, param, room);
            && first != Undefined
            && whole == if first.Text?
                 then Prepend(written + first.s, Bounded(Parse(rest), args, param + ArgsUsed(d), room - |first.s|))
                 else MissingArg
  {
    hide BoundedOne, ScanDirective, ArgsUsed;
    var (d, rest) := ScanDirective(format);
    var first := BoundedOne(d, args, param, room);
    assert Parse(format)[0] == d && Parse(format)[1..] == Parse(rest);
    if first.Text? {
      var tail := Bounded(Parse(rest), args, param + ArgsUsed(d), room - |first.s|);
      if tail.Text? { Associates(written, first.s, tail.s); }
    }
  }

  lemma BoundedEnd(format: string, args: seq<Arg>, param: nat, room: nat, written: string)
    requires param >= 1 && (format == "" || room == 0)
    ensures Prepend(written, Bounded(Parse(format), args, param, room)) == Text(written)
  {
    assert written + "" == written;
  }

  /** The terminator goes behind the text, or over its last character when the text fills the buffer. */
  method Terminate(buffer: array<char>, bufferLen: nat, idx: nat)
    requires idx <= bufferLen <= buffer.Length && bufferLen > 0
    modifies buffer
    ensures Holds(buffer[..bufferLen], Take(old(buffer[..idx]), bufferLen - 1))
  {
    buffer[if idx == bufferLen then bufferLen - 1 else idx] := '\0';
  }

  /** Writes the format into `buffer`; returns the characters written, 0 when a parameter is missing. */
  method Format(buffer: array<char>, bufferLen: nat, format: CString, args: seq<Arg>, param: nat) returns (n: nat)
    requires param >= 1 && bufferLen <= buffer.Length
    requires Bounded(Parse(format), args, param, bufferLen) != Undefined
    modifies buffer
    ensures Bounded(Parse(format), args, param, bufferLen) == MissingArg ==> n == 0
    ensures var r := Bounded(Parse(format), args, param, bufferLen);
            r.Text? ==> n == |r.s| && (bufferLen > 0 ==> Holds(buffer[..bufferLen], Take(r.s, bufferLen - 1)))
    ensures var r := Render(Parse(format), args, param);
            r.Text? && |r.s| < bufferLen ==> n == |r.s| && Holds(buffer[..bufferLen], r.s)
  {
    hide Parse, Bounded, Render;
    ghost var r := Render(Parse(format), args, param);
    if r.Text? && |r.s| < bufferLen {
      RenderThatFits(Parse(format), args, param, bufferLen);
      assert Take(r.s, bufferLen - 1) == r.s;
    }
    var ok;
    ok, n := FormatFields(buffer, bufferLen, format, args, param);
    if !ok { return 0; }
    if bufferLen > 0 {
      Terminate(buffer, bufferLen, n);
    }
  }

  /** The buffer holds the C string `s`. */
  ghost predicate Holds(contents: string, s: string) { s + ['\0'] <= contents }
}
