/**
 * The XML writer: a growable character buffer with a write cursor and the deferred-`>` flag of the
 * open node head. Every write appends a known text to the abstract output `buffer[..currentOffset]`.
 */
module XmlWrite {
  import opened XmlText

  /** The capacity `Create` rents from the pool. */
  const InitialCapacity: nat := 1024

  /** The name of the node `StartNodeHead` opened, needed by `EndNode` to close it explicitly. */
  datatype NodeRecord = NodeRecord(name: string)

  class XmlWriteBuffer {
    var buffer: array<char>
    var currentOffset: nat
    var pendingNodeHeadClose: bool
    var cdataMode: CDataMode

    ghost predicate Valid()
      reads this
    {
      currentOffset <= buffer.Length && buffer.Length >= InitialCapacity
    }

    /** The serialized text so far: the used part of the buffer. */
    ghost function Output(): string
      reads this, buffer
      requires Valid()
    {
      buffer[..currentOffset]
    }

    /** `Create()`: an empty buffer of the initial capacity, no open head, CDATA mode `On`. */
    constructor Create()
      ensures Valid() && fresh(buffer)
      ensures buffer.Length == InitialCapacity
      ensures Output() == [] && !pendingNodeHeadClose && cdataMode == On
    {
      pendingNodeHeadClose := false;
      buffer := new char[InitialCapacity];
      currentOffset := 0;
      cdataMode := On;
    }

    /** Replaces the buffer by one of twice the size holding the same used part. */
    method Resize()
      requires Valid()
      modifies this
      ensures Valid() && fresh(buffer)
      ensures buffer.Length == 2 * old(buffer.Length)
      ensures currentOffset == old(currentOffset) && Output() == old(Output())
      ensures pendingNodeHeadClose == old(pendingNodeHeadClose) && cdataMode == old(cdataMode)
    {
      var newBuffer := new char[buffer.Length * 2];
      forall i | 0 <= i < currentOffset {
        newBuffer[i] := buffer[i];
      }
      buffer := newBuffer;
    }

    /**
     * `TryCopyTo(WriteSpan)` and `TryFormat(WriteSpan, ...)`: copies `chars` behind the cursor when
     * they fit, without moving the cursor.
     */
    method TryCopyToWriteSpan(chars: string) returns (copied: bool)
      requires Valid()
      modifies buffer
      ensures Valid() && copied == (|chars| <= buffer.Length - currentOffset)
      ensures copied ==> buffer[..currentOffset + |chars|] == old(Output()) + chars
      ensures !copied ==> buffer[..] == old(buffer[..])
      ensures Output() == old(Output())
    {
      if |chars| > buffer.Length - currentOffset {
        return false;
      }
      forall i | 0 <= i < |chars| {
        buffer[currentOffset + i] := chars[i];
      }
      assert buffer[..currentOffset + |chars|] == old(Output()) + chars;
      return true;
    }

    /** The growth loop shared by `PutString` and the integer writers: resize until the text fits. */
    method PutFormatted(chars: string)
      requires Valid()
      modifies this, buffer
      ensures Valid() && (buffer == old(buffer) || fresh(buffer))
      ensures buffer.Length >= old(buffer.Length)
      ensures Output() == old(Output()) + chars
      ensures pendingNodeHeadClose == old(pendingNodeHeadClose) && cdataMode == old(cdataMode)
    {
      var copied := TryCopyToWriteSpan(chars);
      while !copied
        invariant Valid() && (buffer == old(buffer) || fresh(buffer))
        invariant buffer.Length >= old(buffer.Length)
        invariant Output() == old(Output())
        invariant copied == (|chars| <= buffer.Length - currentOffset)
        invariant copied ==> buffer[..currentOffset + |chars|] == old(Output()) + chars
        invariant pendingNodeHeadClose == old(pendingNodeHeadClose) && cdataMode == old(cdataMode)
        decreases |chars| - (buffer.Length - currentOffset)
      {
        Resize();
        copied := TryCopyToWriteSpan(chars);
      }
      currentOffset := currentOffset + |chars|;
    }

    /** Appends `chars` as they are. */
    method PutString(chars: string)
      requires Valid()
      modifies this, buffer
      ensures Valid() && (buffer == old(buffer) || fresh(buffer))
      ensures buffer.Length >= old(buffer.Length)
      ensures Output() == old(Output()) + chars
      ensures pendingNodeHeadClose == old(pendingNodeHeadClose) && cdataMode == old(cdataMode)
    {
      if |chars| == 0 {
        return;
      }
      PutFormatted(chars);
    }

    /** Appends one character, growing the buffer once when it is full. */
    method PutChar(c: char)
      requires Valid()
      modifies this, buffer
      ensures Valid() && (buffer == old(buffer) || fresh(buffer))
      ensures buffer.Length >= old(buffer.Length)
      ensures Output() == old(Output()) + [c]
      ensures pendingNodeHeadClose == old(pendingNodeHeadClose) && cdataMode == old(cdataMode)
    {
      if buffer.Length - currentOffset == 0 {
        Resize();
      }
      buffer[currentOffset] := c;
      currentOffset := currentOffset + 1;
      assert Output() == old(Output()) + [c];
    }

    method PutInt(value: Int32)
      requires Valid()
      modifies this, buffer
      ensures Valid() && (buffer == old(buffer) || fresh(buffer))
      ensures Output() == old(Output()) + DecimalText(value as int)
      ensures pendingNodeHeadClose == old(pendingNodeHeadClose) && cdataMode == old(cdataMode)
    {
      PutFormatted(DecimalText(value as int));
    }

    method PutUInt(value: UInt32)
      requires Valid()
      modifies this, buffer
      ensures Valid() && (buffer == old(buffer) || fresh(buffer))
      ensures Output() == old(Output()) + DecimalText(value as int)
      ensures pendingNodeHeadClose == old(pendingNodeHeadClose) && cdataMode == old(cdataMode)
    {
      PutFormatted(DecimalText(value as int));
    }

    method PutLong(value: Int64)
      requires Valid()
      modifies this, buffer
      ensures Valid() && (buffer == old(buffer) || fresh(buffer))
      ensures Output() == old(Output()) + DecimalText(value as int)
      ensures pendingNodeHeadClose == old(pendingNodeHeadClose) && cdataMode == old(cdataMode)
    {
      PutFormatted(DecimalText(value as int));
    }

    /** `ToSpan()`: exactly the text written so far. */
    method ToSpan() returns (span: string)
      requires Valid()
      ensures span == Output() && |span| == currentOffset
    {
      span := buffer[..currentOffset];
    }

    /** Writes the deferred `>` of an open node head, if there is one. */
    method CloseNodeHeadForBodyIfOpen()
      requires Valid()
      modifies this, buffer
      ensures Valid() && (buffer == old(buffer) || fresh(buffer))
      ensures Output() == old(Output()) + (if old(pendingNodeHeadClose) then ">" else "")
      ensures !pendingNodeHeadClose && cdataMode == old(cdataMode)
    {
      if !pendingNodeHeadClose {
        return;
      }
      PutChar('>');
      pendingNodeHeadClose := false;
    }

    /** Opens the node head `<name`, closing any open head first; the new head stays open. */
    method StartNodeHead(name: string) returns (record: NodeRecord)
      requires Valid()
      modifies this, buffer
      ensures Valid() && (buffer == old(buffer) || fresh(buffer))
      ensures Output() == old(Output()) + (if old(pendingNodeHeadClose) then ">" else "") + "<" + name
      ensures pendingNodeHeadClose && cdataMode == old(cdataMode)
      ensures record.name == name
    {
      CloseNodeHeadForBodyIfOpen();
      PutChar('<');
      PutString(name);
      pendingNodeHeadClose := true;
      return NodeRecord(name);
    }

    /** Ends a node: `/>` while its head is still open, otherwise `</name>`. */
    method EndNode(record: NodeRecord)
      requires Valid()
      modifies this, buffer
      ensures Valid() && (buffer == old(buffer) || fresh(buffer))
      ensures old(pendingNodeHeadClose) ==> Output() == old(Output()) + "/>"
      ensures !old(pendingNodeHeadClose) ==> Output() == old(Output()) + "</" + record.name + ">"
      ensures !pendingNodeHeadClose && cdataMode == old(cdataMode)
    {
      if !pendingNodeHeadClose {
        PutString("</");
        PutString(record.name);
        PutChar('>');
      } else {
        PutString("/>");
        pendingNodeHeadClose := false;
      }
    }

    /**
     * `EncodeText`: appends `input` escaped with the element table, or with the attribute table when
     * `attribute` holds, flushing each run of plain characters before an escape.
     */
    method EncodeText(input: string, attribute: bool)
      requires Valid()
      modifies this, buffer
      ensures Valid() && (buffer == old(buffer) || fresh(buffer))
      ensures Output() == old(Output()) + Escape(input, attribute)
      ensures pendingNodeHeadClose == old(pendingNodeHeadClose) && cdataMode == old(cdataMode)
    {
      var escapeChars := EscapeSet(attribute);
      var currentInput := input;
      ghost var done: string := [];
      while true
        invariant Valid() && (buffer == old(buffer) || fresh(buffer))
        invariant input == done + currentInput
        invariant Output() == old(Output()) + Escape(done, attribute)
        invariant pendingNodeHeadClose == old(pendingNodeHeadClose) && cdataMode == old(cdataMode)
        decreases |currentInput|
      {
        var escapeCharIdx := IndexOfAny(currentInput, escapeChars);
        ghost var before := Output();
        if escapeCharIdx == -1 {
          PutString(currentInput);
          EscapeRest(old(Output()), before, done, currentInput, attribute);
          return;
        }
        var charToEncode := currentInput[escapeCharIdx];
        PutRunAndEntity(currentInput[..escapeCharIdx], charToEncode);
        EscapeRun(old(Output()), before, done, currentInput, escapeCharIdx, attribute);
        done := done + currentInput[..escapeCharIdx + 1];
        currentInput := currentInput[escapeCharIdx + 1..];
      }
    }

    /** The body of the `EncodeText` loop: the plain run before a reserved character, then its entity. */
    method PutRunAndEntity(plain: string, charToEncode: char)
      requires Valid() && charToEncode in AttributeEscapes
      modifies this, buffer
      ensures Valid() && (buffer == old(buffer) || fresh(buffer))
      ensures Output() == old(Output()) + plain + Entity(charToEncode)
      ensures pendingNodeHeadClose == old(pendingNodeHeadClose) && cdataMode == old(cdataMode)
    {
      PutString(plain);
      PutString(Entity(charToEncode));
    }

    /** Closes an open head, then writes text in the configured CDATA mode. */
    method PutCData(text: string)
      requires Valid()
      modifies this, buffer
      ensures Valid() && (buffer == old(buffer) || fresh(buffer))
      ensures var head := if old(pendingNodeHeadClose) then ">" else "";
        Output() == old(Output()) + head + match cdataMode
          case Off => Escape(text, false)
          case On => CDataStart + text + CDataEnd
          case OnEncode => CDataStart + Escape(text, false) + CDataEnd
      ensures !pendingNodeHeadClose && cdataMode == old(cdataMode)
    {
      CloseNodeHeadForBodyIfOpen();
      ghost var o1 := Output();
      if cdataMode == Off {
        EncodeText(text, false);
      } else {
        PutString(CDataStart);
        ghost var o2 := Output();
        var body := if cdataMode == OnEncode then Escape(text, false) else text;
        if cdataMode == OnEncode {
          EncodeText(text, false);
        } else {
          PutString(text);
        }
        assert Output() == o2 + body;
        PutString(CDataEnd);
        AppendThree(o1, CDataStart, body, CDataEnd);
      }
    }

    /** Writes ` name='` inside the open head (asserted by the source). */
    method StartAttrCommon(name: string)
      requires Valid() && pendingNodeHeadClose
      modifies this, buffer
      ensures Valid() && (buffer == old(buffer) || fresh(buffer))
      ensures Output() == old(Output()) + " " + name + "='"
      ensures pendingNodeHeadClose && cdataMode == old(cdataMode)
    {
      PutChar(' ');
      PutString(name);
      PutString("='");
    }

    /** Writes the closing quote of an attribute. */
    method EndAttrCommon()
      requires Valid()
      modifies this, buffer
      ensures Valid() && (buffer == old(buffer) || fresh(buffer))
      ensures Output() == old(Output()) + "'"
      ensures pendingNodeHeadClose == old(pendingNodeHeadClose) && cdataMode == old(cdataMode)
    {
      PutChar('\'');
    }

    /** Writes ` name='value'` with the value escaped for attribute context; the head stays open. */
    method PutAttribute(name: string, value: string)
      requires Valid() && pendingNodeHeadClose
      modifies this, buffer
      ensures Valid() && (buffer == old(buffer) || fresh(buffer))
      ensures Output() == old(Output()) + " " + name + "='" + Escape(value, true) + "'"
      ensures pendingNodeHeadClose && cdataMode == old(cdataMode)
    {
      StartAttrCommon(name);
      EncodeText(value, true);
      EndAttrCommon();
    }

    /** Closes an open head, then writes the scalar's text. */
    method PutValue(value: Scalar)
      requires Valid()
      modifies this, buffer
      ensures Valid() && (buffer == old(buffer) || fresh(buffer))
      ensures Output() == old(Output()) + (if old(pendingNodeHeadClose) then ">" else "") + ScalarText(value)
      ensures !pendingNodeHeadClose && cdataMode == old(cdataMode)
    {
      CloseNodeHeadForBodyIfOpen();
      PutScalar(value);
    }

    /** The `switch` of `PutValue`: the scalar's text, booleans as the single character `1` or `0`. */
    method PutScalar(value: Scalar)
      requires Valid()
      modifies this, buffer
      ensures Valid() && (buffer == old(buffer) || fresh(buffer))
      ensures Output() == old(Output()) + ScalarText(value)
      ensures pendingNodeHeadClose == old(pendingNodeHeadClose) && cdataMode == old(cdataMode)
    {
      match value
      case IntValue(i) => PutInt(i);
      case UIntValue(u) => PutUInt(u);
      case LongValue(l) => PutLong(l);
      case CharValue(c) => PutChar(c);
      case BoolValue(b) => PutChar(BoolChar(b));
      case ByteValue(n) => PutString(DecimalText(n as int));
      case Formatted(text) => PutString(text);
    }

    /**
     * Writes an attribute through `PutValue`, as the source does. Because `PutValue` first closes
     * the open head, the deferred `>` lands inside the quotes and the head is no longer open.
     */
    method PutAttributeValue(name: string, value: Scalar)
      requires Valid() && pendingNodeHeadClose
      modifies this, buffer
      ensures Valid() && (buffer == old(buffer) || fresh(buffer))
      ensures Output() == old(Output()) + " " + name + "='" + AttributeValueAsWritten(value) + "'"
      ensures !pendingNodeHeadClose && cdataMode == old(cdataMode)
    {
      StartAttrCommon(name);
      ghost var o1 := Output();
      PutValue(value);
      assert Output() == o1 + AttributeValueAsWritten(value);
      EndAttrCommon();
    }

    /** The attribute writer as intended: the scalar's text between the quotes, the head left open. */
    method PutAttributeScalar(name: string, value: Scalar)
      requires Valid() && pendingNodeHeadClose
      modifies this, buffer
      ensures Valid() && (buffer == old(buffer) || fresh(buffer))
      ensures Output() == old(Output()) + " " + name + "='" + ScalarText(value) + "'"
      ensures pendingNodeHeadClose && cdataMode == old(cdataMode)
    {
      StartAttrCommon(name);
      PutScalar(value);
      EndAttrCommon();
    }

    method PutAttributeInt(name: string, value: Int32)
      requires Valid() && pendingNodeHeadClose
      modifies this, buffer
      ensures Valid() && (buffer == old(buffer) || fresh(buffer))
      ensures Output() == old(Output()) + " " + name + "='" + DecimalText(value as int) + "'"
      ensures pendingNodeHeadClose && cdataMode == old(cdataMode)
    {
      StartAttrCommon(name);
      PutInt(value);
      EndAttrCommon();
    }

    method PutAttributeUInt(name: string, value: UInt32)
      requires Valid() && pendingNodeHeadClose
      modifies this, buffer
      ensures Valid() && (buffer == old(buffer) || fresh(buffer))
      ensures Output() == old(Output()) + " " + name + "='" + DecimalText(value as int) + "'"
      ensures pendingNodeHeadClose && cdataMode == old(cdataMode)
    {
      StartAttrCommon(name);
      PutUInt(value);
      EndAttrCommon();
    }

    method PutAttributeLong(name: string, value: Int64)
      requires Valid() && pendingNodeHeadClose
      modifies this, buffer
      ensures Valid() && (buffer == old(buffer) || fresh(buffer))
      ensures Output() == old(Output()) + " " + name + "='" + DecimalText(value as int) + "'"
      ensures pendingNodeHeadClose && cdataMode == old(cdataMode)
    {
      StartAttrCommon(name);
      PutLong(value);
      EndAttrCommon();
    }

    method PutAttributeBoolean(name: string, value: bool)
      requires Valid() && pendingNodeHeadClose
      modifies this, buffer
      ensures Valid() && (buffer == old(buffer) || fresh(buffer))
      ensures Output() == old(Output()) + " " + name + "='" + [BoolChar(value)] + "'"
      ensures pendingNodeHeadClose && cdataMode == old(cdataMode)
    {
      StartAttrCommon(name);
      PutChar(BoolChar(value));
      EndAttrCommon();
    }

    /** A byte attribute is written through `PutUInt`. */
    method PutAttributeByte(name: string, value: Byte)
      requires Valid() && pendingNodeHeadClose
      modifies this, buffer
      ensures Valid() && (buffer == old(buffer) || fresh(buffer))
      ensures Output() == old(Output()) + " " + name + "='" + DecimalText(value as int) + "'"
      ensures pendingNodeHeadClose && cdataMode == old(cdataMode)
    {
      StartAttrCommon(name);
      PutUInt(value as int as UInt32);
      EndAttrCommon();
    }
  }

  /** What `PutAttributeValue` writes between the quotes: the head's `>`, then the scalar's text. */
  function AttributeValueAsWritten(v: Scalar): (r: string)
    ensures |r| == 1 + |ScalarText(v)| && r[0] == '>' && r[1..] == ScalarText(v)
  {
    ">" + ScalarText(v)
  }

  /**
   * The value `PutAttributeValue` writes is never the escaped form of any text: it starts with a
   * raw `>`, which attribute escaping always replaces.
   */
  lemma AttributeValueNotEscaped(v: Scalar, s: string)
    ensures Escape(s, true) != AttributeValueAsWritten(v)
    ensures !FreeOfReserved(AttributeValueAsWritten(v), true)
  {
    EscapeFreeOfReserved(s, true);
    assert AttributeValueAsWritten(v)[0] == '>';
  }

  /**
   * What `PutAttributeScalar` writes for an integer or boolean scalar is exactly what `PutAttribute`
   * writes for the same text: it needs no escaping and holds no reserved character.
   */
  lemma AttributeScalarIsEscaped(v: Scalar)
    requires !v.Formatted? && !v.CharValue?
    ensures Escape(ScalarText(v), true) == ScalarText(v)
    ensures FreeOfReserved(ScalarText(v), true)
  {
    ScalarTextNeedsNoEscape(v, true);
    EscapeFreeOfReserved(ScalarText(v), true);
  }

  lemma AppendThree(o: string, a: string, b: string, c: string)
    ensures o + a + b + c == o + (a + b + c)
    ensures o + a + b == o + (a + b)
  {
  }

  /** The last step of `EncodeText`: the rest of the input holds no reserved character. */
  lemma EscapeRest(start: string, before: string, done: string, rest: string, attribute: bool)
    requires before == start + Escape(done, attribute)
    requires forall i :: 0 <= i < |rest| ==> rest[i] !in EscapeSet(attribute)
    ensures before + rest == start + Escape(done + rest, attribute)
  {
    EscapePlain(rest, attribute);
    EscapeConcat(done, rest, attribute);
    AppendThree(start, Escape(done, attribute), rest, []);
  }

  /**
   * One step of `EncodeText`: the run of plain characters before the reserved character at `idx`,
   * then its entity, extend the escaped prefix by `rest[..idx + 1]`.
   */
  lemma EscapeRun(start: string, before: string, done: string, rest: string, idx: nat, attribute: bool)
    requires idx < |rest|
    requires before == start + Escape(done, attribute)
    requires forall i :: 0 <= i < idx ==> rest[i] !in EscapeSet(attribute)
    requires rest[idx] in EscapeSet(attribute)
    ensures before + rest[..idx] + Entity(rest[idx]) == start + Escape(done + rest[..idx + 1], attribute)
    ensures done + rest == (done + rest[..idx + 1]) + rest[idx + 1..]
  {
    var plain, c := rest[..idx], rest[idx];
    assert rest[..idx + 1] == plain + [c];
    EscapeRunText(done, plain, c, attribute);
    AppendThree(start, Escape(done, attribute), plain, Entity(c));
    assert rest == rest[..idx + 1] + rest[idx + 1..];
  }

  /** The escape of a prefix, a plain run, and one reserved character. */
  lemma EscapeRunText(done: string, plain: string, c: char, attribute: bool)
    requires forall i :: 0 <= i < |plain| ==> plain[i] !in EscapeSet(attribute)
    requires c in EscapeSet(attribute)
    ensures Escape(done + (plain + [c]), attribute) == Escape(done, attribute) + plain + Entity(c)
  {
    EscapePlain(plain, attribute);
    EscapeOne(c, attribute);
    EscapeConcat(plain, [c], attribute);
    EscapeConcat(done, plain + [c], attribute);
  }
}
