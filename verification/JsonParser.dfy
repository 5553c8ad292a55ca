/** The parser as the library runs it: a cursor that moves over the text, and loops that build the values. */
module JsonParser {
  import opened Bytes
  import opened JsonValue
  import opened JsonText
  import opened JsonParse
  import opened JsonStrings
  import ObjectTable
  import Probing

  datatype Turn = Again | Done | Failed

  class Parser {
    const text: bytes
    const numbers: NumberText
    var pos: nat

    constructor (text: bytes, numbers: NumberText)
      ensures this.text == text && this.numbers == numbers && pos == 0
    {
      this.text := text;
      this.numbers := numbers;
      pos := 0;
    }

    method SkipWhitespaces()
      requires pos <= |text|
      modifies this`pos
      ensures pos == SkipSpaces(text, old(pos)) <= |text|
    {
      while IsSpace(At(text, pos))
        invariant pos <= |text| && SkipSpaces(text, pos) == SkipSpaces(text, old(pos))
        decreases |text| - pos
      {
        pos := pos + 1;
      }
    }

    /** skip_quotes */
    method SkipQuotedText() returns (ok: bool)
      requires pos <= |text|
      modifies this`pos
      ensures ok <==> SkipQuotes(text, old(pos)).Some?
      ensures ok ==> pos == SkipQuotes(text, old(pos)).value <= |text|
    {
      if At(text, pos) != QUOTE {
        return false;
      }
      pos := pos + 1;
      while At(text, pos) != QUOTE
        invariant pos <= |text| && SkipQuoted(text, pos) == SkipQuotes(text, old(pos))
        decreases |text| - pos
      {
        if At(text, pos) == NUL {
          return false;
        } else if At(text, pos) == BACKSLASH {
          pos := pos + 1;
          if At(text, pos) == NUL {
            return false;
          }
        }
        pos := pos + 1;
      }
      pos := pos + 1;
      return true;
    }

    /** The writes of one turn of process_string at index `o` of the output buffer. */
    method Emit(output: array<byte>, o: nat, out: bytes)
      requires o + |out| <= output.Length
      modifies output
      ensures output[..o + |out|] == old(output[..o]) + out
    {
      var i := 0;
      while i < |out|
        invariant i <= |out|
        invariant output[..o + i] == old(output[..o]) + out[..i]
      {
        output[o + i] := out[i];
        i := i + 1;
        assert output[..o + i] == output[..o + i - 1] + [out[i - 1]];
      }
    }

    /**
     * process_string, called on what skip_quotes has skipped: the output buffer has room for as many bytes as the
     * input and a terminator, and no write leaves it.
     */
    method ProcessString(start: nat, length: nat) returns (r: Option<bytes>)
      requires start + length < |text| && SkipQuoted(text, start) == Some(start + length + 1)
      ensures r == match Process(text, start, start + length)
                   case Refused => None
                   case Parsed(s, _) => Some(s)
    {
      var output := new byte[length + 1];
      var q: nat, o: nat := start, 0;
      ghost var e := start + length;
      ghost var whole := Process(text, start, e);
      assert output[..o] == [] && (whole.Parsed? ==> [] + whole.value == whole.value);
      while At(text, q) != NUL && q - start < length
        invariant start <= q <= e && o <= q - start && output.Length == length + 1
        invariant SkipQuoted(text, q) == Some(e + 1)
        invariant Process(text, start, e) == Prepend(output[..o], Process(text, q, e))
        decreases e - q
      {
        ProcessTurn(text, q, e, output[..o]);
        match UnescapeOne(text, q) {
          case Refused => return None;
          case Parsed(out, q') =>
            Emit(output, o, out);
            o, q := o + |out|, q';
        }
      }
      output[o] := NUL;
      assert output[..o] + [] == output[..o];
      return Some(output[..o]);
    }

    /** get_quoted_string */
    method GetQuotedString() returns (r: Option<bytes>)
      requires pos <= |text|
      modifies this`pos
      ensures r.Some? <==> GetQuoted(text, old(pos)).Parsed?
      ensures r.Some? ==> r.value == GetQuoted(text, old(pos)).value && pos == GetQuoted(text, old(pos)).end <= |text|
    {
      var start := pos;
      var ok := SkipQuotedText();
      if !ok {
        return None;
      }
      var length := pos - start - 2;
      r := ProcessString(start + 1, length);
    }

    /** parse_value */
    method ParseValueAt(nesting: nat) returns (r: Option<Value>)
      requires pos <= |text|
      modifies this`pos
      ensures Returned(r, ParseValue(text, old(pos), nesting, numbers))
      decreases |text| - pos, 1
    {
      if nesting > MAX_NESTING {
        return None;
      }
      SkipWhitespaces();
      var c := At(text, pos);
      if c == LBRACE {
        r := ParseObjectValue(nesting + 1);
      } else if c == LBRACKET {
        r := ParseArrayValue(nesting + 1);
      } else if c == QUOTE {
        var s := GetQuotedString();
        r := if s.Some? then Some(String(s.value)) else None;
      } else if c == 0x66 || c == 0x74 {
        r := ParseBooleanValue();
      } else if c == MINUS || IsDigit(c) {
        r := ParseNumberValue();
      } else if c == 0x6E {
        r := ParseNullValue();
      } else {
        r := None;
      }
    }

    /** A parsing method returns what the function computes and leaves the cursor where it says. */
    ghost predicate Returned(r: Option<Value>, p: Parsed<Value>)
      reads this`pos
    {
      (r.Some? <==> p.Parsed?) && (r.Some? ==> r.value == p.value && pos == p.end <= |text|)
    }

    method ParseBooleanValue() returns (r: Option<Value>)
      requires pos <= |text|
      modifies this`pos
      ensures Returned(r, if StartsWith(text, old(pos), TRUE_TEXT) then Parsed(Boolean(true), old(pos) + 4)
                          else if StartsWith(text, old(pos), FALSE_TEXT) then Parsed(Boolean(false), old(pos) + 5)
                          else Refused)
    {
      if StartsWith(text, pos, TRUE_TEXT) {
        pos := pos + |TRUE_TEXT|;
        return Some(Boolean(true));
      } else if StartsWith(text, pos, FALSE_TEXT) {
        pos := pos + |FALSE_TEXT|;
        return Some(Boolean(false));
      }
      return None;
    }

    method ParseNumberValue() returns (r: Option<Value>)
      requires pos <= |text|
      modifies this`pos
      ensures Returned(r, ParseNumber(text, old(pos), numbers))
    {
      var d := numbers.strtod(text[pos..]);
      if d.refused || pos + d.length > |text| || !IsDecimal(text[pos..pos + d.length]) {
        return None;
      }
      pos := pos + d.length;
      return Some(Number(d.value));
    }

    method ParseNullValue() returns (r: Option<Value>)
      requires pos <= |text|
      modifies this`pos
      ensures Returned(r, if StartsWith(text, old(pos), NULL_TEXT) then Parsed(Null, old(pos) + 4) else Refused)
    {
      if StartsWith(text, pos, NULL_TEXT) {
        pos := pos + |NULL_TEXT|;
        return Some(Null);
      }
      return None;
    }

    /** parse_object_value */
    method ParseObjectValue(nesting: nat) returns (r: Option<Value>)
      requires pos < |text| && text[pos] == LBRACE
      modifies this`pos
      ensures Returned(r, ParseObject(text, old(pos), nesting, numbers))
      decreases |text| - pos, 0
    {
      hide SkipSpaces, ParseObject, ParseMembers;
      ObjectStep(text, pos, nesting, numbers);
      pos := pos + 1;
      SkipWhitespaces();
      if At(text, pos) == RBRACE {
        pos := pos + 1;
        return Some(Object([]));
      }
      r := ParseMemberList(nesting);
    }

    /** The loop of parse_object_value: members go into a hash table, which refuses a second member of the same name. */
    method ParseMemberList(nesting: nat) returns (r: Option<Value>)
      requires pos <= |text|
      modifies this`pos
      ensures Returned(r, ParseMembers(text, old(pos), nesting, numbers, []))
      decreases |text| - pos, 2
    {
      hide SkipSpaces, ParseMembers, ParseMember, CloseObject, AddMember,
        Probing.TableOk, Probing.Linked, Probing.Probed, ObjectTable.IsCapacity, ObjectTable.Zip;
      var table := new ObjectTable.Table(0);
      var turn := Again;
      while At(text, pos) != NUL && turn == Again
        invariant old(pos) <= pos <= |text|
        invariant fresh(table) && fresh(table.Arrays()) && table.Valid() && turn != Failed
        invariant ParseMembers(text, old(pos), nesting, numbers, [])
                  == if turn == Done then CloseObject(text, pos, table.Members())
                     else ParseMembers(text, pos, nesting, numbers, table.Members())
        decreases |text| - pos, turn == Again
      {
        turn := MemberTurn(table, nesting);
        if turn == Failed {
          return None;
        }
      }
      MembersEnd(text, pos, nesting, numbers, table.Members());
      var members := table.Listing();
      r := FinishObject(members);
    }

    /** One turn of the loop of parse_object_value: `Again` is the way back to its head, `Done` a break. */
    method MemberTurn(table: ObjectTable.Table, nesting: nat) returns (turn: Turn)
      requires pos < |text| && At(text, pos) != NUL && table.Valid()
      modifies this`pos, table, table.Arrays()
      ensures table.Valid() && fresh(table.Arrays() - old(table.Arrays()))
      ensures turn == Failed ==> ParseMembers(text, old(pos), nesting, numbers, old(table.Members())) == Refused
      ensures turn != Failed ==>
                old(pos) < pos <= |text| &&
                ParseMembers(text, old(pos), nesting, numbers, old(table.Members()))
                == if turn == Done then CloseObject(text, pos, table.Members())
                   else ParseMembers(text, pos, nesting, numbers, table.Members())
      decreases |text| - pos, 1
    {
      hide SkipSpaces, ParseObject, ParseMembers, ParseMember, CloseObject, AddMember,
        Probing.TableOk, Probing.Linked, Probing.Probed, ObjectTable.IsCapacity, ObjectTable.Zip;
      ghost var p, before := pos, table.Members();
      var m := ParseOneMember(nesting);
      if m.None? {
        MemberRefused(text, p, nesting, numbers, before);
        return Failed;
      }
      var added := table.Add(m.value.name, m.value.value);
      if !added {
        MemberRepeated(text, p, nesting, numbers, before);
        return Failed;
      }
      SkipWhitespaces();
      MemberStep(text, p, nesting, numbers, before, table.Members(), pos);
      if At(text, pos) != COMMA {
        return Done;
      }
      pos := pos + 1;
      SkipWhitespaces();
      return if At(text, pos) == RBRACE then Done else Again;
    }

    /** The end of parse_object_value, behind its loop. */
    method FinishObject(members: seq<Member>) returns (r: Option<Value>)
      requires pos <= |text|
      modifies this`pos
      ensures Returned(r, CloseObject(text, old(pos), members))
    {
      SkipWhitespaces();
      if At(text, pos) != RBRACE {
        return None;
      }
      pos := pos + 1;
      return Some(Object(members));
    }

    /** The part of the loop of parse_object_value that reads a name, a colon and a value. */
    method ParseOneMember(nesting: nat) returns (r: Option<Member>)
      requires pos < |text|
      modifies this`pos
      ensures r.Some? <==> ParseMember(text, old(pos), nesting, numbers).Parsed?
      ensures r.Some? ==>
                var m := ParseMember(text, old(pos), nesting, numbers);
                r.value == m.value && NulFree(r.value.name) && old(pos) < pos == m.end <= |text|
      decreases |text| - pos, 0
    {
      var key := GetQuotedString();
      if key.None? {
        return None;
      }
      if !NulFree(key.value) {
        return None;
      }
      SkipWhitespaces();
      if At(text, pos) != COLON {
        return None;
      }
      pos := pos + 1;
      var v := ParseValueAt(nesting);
      if v.None? {
        return None;
      }
      return Some(Member(key.value, v.value));
    }

    /** parse_array_value */
    method ParseArrayValue(nesting: nat) returns (r: Option<Value>)
      requires pos < |text| && text[pos] == LBRACKET
      modifies this`pos
      ensures Returned(r, ParseArray(text, old(pos), nesting, numbers))
      decreases |text| - pos, 0
    {
      hide SkipSpaces, ParseArray, ParseItems, ParseValue, CloseArray;
      ArrayStep(text, pos, nesting, numbers);
      pos := pos + 1;
      SkipWhitespaces();
      if At(text, pos) == RBRACKET {
        pos := pos + 1;
        return Some(Array([]));
      }
      var items: seq<Value> := [];
      while At(text, pos) != NUL
        invariant old(pos) < pos <= |text|
        invariant ParseArray(text, old(pos), nesting, numbers) == ParseItems(text, pos, nesting, numbers, items)
        decreases |text| - pos
      {
        ghost var p, before := pos, items;
        var v := ParseValueAt(nesting);
        if v.None? {
          ItemRefused(text, p, nesting, numbers, before);
          return None;
        }
        items := items + [v.value];
        SkipWhitespaces();
        ItemStep(text, p, nesting, numbers, before, pos);
        if At(text, pos) != COMMA {
          break;
        }
        pos := pos + 1;
        SkipWhitespaces();
        if At(text, pos) == RBRACKET {
          break;
        }
      }
      ItemsEnd(text, pos, nesting, numbers, items);
      r := FinishArray(items);
    }

    /** The end of parse_array_value, behind its loop. */
    method FinishArray(items: seq<Value>) returns (r: Option<Value>)
      requires pos <= |text|
      modifies this`pos
      ensures Returned(r, CloseArray(text, old(pos), items))
    {
      SkipWhitespaces();
      if At(text, pos) != RBRACKET {
        return None;
      }
      pos := pos + 1;
      return Some(Array(items));
    }
  }

  /** json_parse_string: an optional byte order mark, then one value; text behind it is ignored. */
  method ParseString(text: bytes, numbers: NumberText) returns (r: Option<Value>)
    ensures r == ParseText(text, numbers)
  {
    var parser := new Parser(text, numbers);
    if StartsWith(text, 0, [0xEF, 0xBB, 0xBF]) {
      parser.pos := 3;
    }
    r := parser.ParseValueAt(0);
  }

  /** One turn of the process_string loop on skipped text. */
  lemma ProcessTurn(t: bytes, q: nat, e: nat, done: bytes)
    requires q < e < |t| && SkipQuoted(t, q) == Some(e + 1)
    ensures At(t, q) != NUL
    ensures UnescapeOne(t, q).Refused? ==> Process(t, q, e) == Refused
    ensures UnescapeOne(t, q).Parsed? ==>
              var r := UnescapeOne(t, q);
              r.end <= e && SkipQuoted(t, r.end) == Some(e + 1)
              && Prepend(done, Process(t, q, e)) == Prepend(done + r.value, Process(t, r.end, e))
  {
    QuoteIsLast(t, q);
    UnescapeBelow(t, q, e);
    var r := UnescapeOne(t, q);
    if r.Parsed? {
      SkipFollows(t, q);
      var rest := Process(t, r.end, e);
      assert rest.Parsed? ==> done + (r.value + rest.value) == done + r.value + rest.value;
    }
  }
}
