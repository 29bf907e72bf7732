/** The text a LabelCharacteristic publishes (onSignDetect in
    trfk-sign-label/label_characteristic.py): `str(labels)` for a Python list
    of strings, with every '[', ']' and '\'' deleted by `re.sub`, sent as the
    bytes of `str.encode()` (UTF-8). The phone app (RpiBleApp/App.js) turns
    the bytes back into a string one character per byte and splits it on
    ", ". */
module LabelFormat {

  // ---------------------------------------------------------------------
  // Joining and splitting.

  /** `sep.join(parts)`. */
  function Join(parts: seq<string>, sep: string): (r: string)
    ensures parts == [] ==> r == ""
    ensures |parts| == 1 ==> r == parts[0]
    ensures |parts| > 0 ==> |r| >= |parts[0]|
    decreases |parts|
  {
    if parts == [] then ""
    else if |parts| == 1 then parts[0]
    else parts[0] + sep + Join(parts[1..], sep)
  }

  /** `s` has `sep` starting at position k. */
  predicate OccursAt(s: string, sep: string, k: nat)
  {
    k + |sep| <= |s| && s[k..k + |sep|] == sep
  }

  /** `sep` occurs nowhere in `s`. */
  predicate Free(s: string, sep: string)
  {
    forall k: nat :: k <= |s| ==> !OccursAt(s, sep, k)
  }

  /** The first position at or after `from` where `sep` starts, if any. */
  function FindFrom(s: string, sep: string, from: nat): (r: int)
    requires from <= |s|
    ensures r == -1 || from <= r <= |s|
    ensures r == -1 ==> forall k: nat :: from <= k <= |s| ==> !OccursAt(s, sep, k)
    ensures r != -1 ==> OccursAt(s, sep, r) && forall k: nat :: from <= k < r ==> !OccursAt(s, sep, k)
    decreases |s| - from
  {
    if OccursAt(s, sep, from) then from
    else if from == |s| then -1
    else FindFrom(s, sep, from + 1)
  }

  /** JavaScript's `s.split(sep)` for a non-empty separator: the pieces
      between the occurrences of `sep`, found left to right. */
  function Split(s: string, sep: string): (r: seq<string>)
    requires |sep| > 0
    ensures |r| > 0
    decreases |s|
  {
    var k := FindFrom(s, sep, 0);
    if k == -1 then [s] else [s[..k]] + Split(s[k + |sep|..], sep)
  }

  /** The separator the phone app splits on. */
  const Comma: string := ", "

  /** Joining with ", " and splitting on ", " gives the labels back,
      provided there is at least one and none contains ", ". */
  lemma {:induction false} SplitJoin(labels: seq<string>)
    requires |labels| > 0
    requires forall i :: 0 <= i < |labels| ==> Free(labels[i], Comma)
    ensures Split(Join(labels, Comma), Comma) == labels
    decreases |labels|
  {
    if |labels| == 1 {
      NoneFound(labels[0], Comma);
    } else {
      var head, tail := labels[0], Join(labels[1..], Comma);
      var s := head + Comma + tail;
      FirstSeparatorAfterHead(head, tail);
      assert s[|head| + |Comma|..] == tail;
      assert s[..|head|] == head;
      SplitJoin(labels[1..]);
    }
  }

  /** A string free of `sep` has no occurrence to split at. */
  lemma NoneFound(s: string, sep: string)
    requires |sep| > 0 && Free(s, sep)
    ensures FindFrom(s, sep, 0) == -1
  {
  }

  /** In `head + ", " + tail`, with `head` free of ", ", the first ", "
      is the one right after `head`: a ',' at the end of `head` is
      followed by ',' and not by ' '. */
  lemma FirstSeparatorAfterHead(head: string, tail: string)
    requires Free(head, Comma)
    ensures FindFrom(head + Comma + tail, Comma, 0) == |head|
  {
    var s := head + Comma + tail;
    assert OccursAt(s, Comma, |head|) by {
      assert s[|head|..|head| + 2] == Comma;
    }
    forall k: nat | k < |head| ensures !OccursAt(s, Comma, k) {
      if k + 2 <= |head| {
        assert s[k..k + 2] == head[k..k + 2];
        assert !OccursAt(head, Comma, k);
      } else {
        assert s[k + 1] == ',';
      }
    }
    FindFromFirst(s, Comma, |head|);
  }

  /** FindFrom returns the first occurrence. */
  lemma FindFromFirst(s: string, sep: string, k: nat)
    requires k <= |s| && OccursAt(s, sep, k)
    requires forall j: nat :: j < k ==> !OccursAt(s, sep, j)
    ensures FindFrom(s, sep, 0) == k
  {
  }

  // ---------------------------------------------------------------------
  // Python's repr of a str and of a list of str.

  /** Two lower-case hex digits of a byte value. */
  function HexDigit(n: nat): (d: char)
    requires n < 16
    ensures '0' <= d <= '9' || 'a' <= d <= 'f'
  {
    if n < 10 then '0' + n as char else 'a' + (n - 10) as char
  }

  /** A character `repr` writes as a \xNN escape: an ASCII control
      character or DEL. */
  predicate IsControl(c: char)
  {
    c < ' ' || c as int == 0x7f
  }

  /** How `repr` writes one character inside the chosen quotes: as itself
      exactly when it is neither the quote, a backslash nor a control
      character, and otherwise as an escape that starts with a backslash.
      The quote only ever appears right after that backslash. */
  function EscapeChar(c: char, quote: char): (r: string)
    ensures 1 <= |r| <= 4
    ensures r == [c] <==> c != quote && c != '\\' && !IsControl(c)
    ensures |r| > 1 ==> r[0] == '\\'
    ensures quote == '\'' || quote == '"' ==> forall k :: 0 <= k < |r| && r[k] == quote ==> k == 1 && r[0] == '\\'
  {
    if c == quote || c == '\\' then ['\\', c]
    else if c == '\t' then "\\t"
    else if c == '\n' then "\\n"
    else if c == '\r' then "\\r"
    else if IsControl(c) then ['\\', 'x', HexDigit(c as nat / 16), HexDigit(c as nat % 16)]
    else [c]
  }

  /** The body of a repr: every character escaped in turn. Nothing is
      dropped, and the quote never appears without a backslash before it. */
  function EscapeAll(s: string, quote: char): (r: string)
    ensures |r| >= |s|
    ensures quote == '\'' || quote == '"' ==> forall k :: 0 <= k < |r| && r[k] == quote ==> 0 < k && r[k - 1] == '\\'
    decreases |s|
  {
    if s == [] then ""
    else
      var front, e := EscapeAll(s[..|s| - 1], quote), EscapeChar(s[|s| - 1], quote);
      assert forall k :: |front| <= k < |front + e| ==> (front + e)[k] == e[k - |front|];
      front + e
  }

  /** `repr(s)`: double quotes when `s` has a single quote and no double
      quote, single quotes otherwise. The literal opens and closes with the
      same quote, and every other occurrence of that quote is escaped, so
      the literal ends only at its last character. */
  function Repr(s: string): (r: string)
    ensures |r| >= |s| + 2 && r[0] == r[|r| - 1]
    ensures r[0] == '\'' || r[0] == '"'
    ensures r[0] == '"' <==> '\'' in s && '"' !in s
    ensures forall k :: 0 < k < |r| - 1 && r[k] == r[0] ==> r[k - 1] == '\\'
  {
    var quote := if '\'' in s && '"' !in s then '"' else '\'';
    var body := EscapeAll(s, quote);
    assert forall k :: 0 < k < |body| + 1 ==> ([quote] + body + [quote])[k] == body[k - 1];
    [quote] + body + [quote]
  }

  /** The repr of every label, in order. */
  function Reprs(labels: seq<string>): (r: seq<string>)
    ensures |r| == |labels| && forall i :: 0 <= i < |labels| ==> r[i] == Repr(labels[i])
  {
    seq(|labels|, i requires 0 <= i < |labels| => Repr(labels[i]))
  }

  /** `str(labels)` for a list of strings: bracketed, and "[]" exactly
      for the empty list. */
  function ListRepr(labels: seq<string>): (r: string)
    ensures |r| >= 2 && r[0] == '[' && r[|r| - 1] == ']'
    ensures r == "[]" <==> labels == []
  {
    "[" + Join(Reprs(labels), Comma) + "]"
  }

  // ---------------------------------------------------------------------
  // The re.sub and the published value.

  /** The three characters `re.sub(r"[\[\]']", "", ...)` deletes. */
  predicate Deleted(c: char)
  {
    c == '[' || c == ']' || c == '\''
  }

  /** `re.sub(r"[\[\]']", "", s)`. */
  function Strip(s: string): (r: string)
    ensures |r| <= |s|
    ensures forall c :: c in r <==> c in s && !Deleted(c)
    decreases |s|
  {
    if s == [] then ""
    else
      var init := Strip(s[..|s| - 1]);
      var last := s[|s| - 1];
      assert s == s[..|s| - 1] + [last];
      if Deleted(last) then init else init + [last]
  }

  /** Deleting is done character by character. */
  lemma {:induction false} StripConcat(a: string, b: string)
    ensures Strip(a + b) == Strip(a) + Strip(b)
    decreases |b|
  {
    if b != [] {
      var b' := b[..|b| - 1];
      StripConcat(a, b');
      assert (a + b)[..|a + b| - 1] == a + b';
    } else {
      assert a + b == a;
    }
  }

  /** Deleting changes nothing in a string that has none of the three. */
  lemma {:induction false} StripClean(s: string)
    requires forall i :: 0 <= i < |s| ==> !Deleted(s[i])
    ensures Strip(s) == s
    decreases |s|
  {
    if s != [] {
      StripClean(s[..|s| - 1]);
      assert !Deleted(s[|s| - 1]);
    }
  }

  /** The value onSignDetect stores: `re.sub(r"[\[\]']", "", str(labels))`. */
  function FormatLabels(labels: seq<string>): (value: string)
    ensures forall c :: c in value ==> !Deleted(c)
  {
    Strip(ListRepr(labels))
  }

  /** No labels give the empty string: "[]" loses both brackets. */
  lemma FormatNoLabels()
    ensures FormatLabels([]) == ""
  {
    assert ListRepr([]) == "[]";
    assert Strip("[]") == Strip("[") + Strip("]") by {
      StripConcat("[", "]");
    }
  }

  /** A label `repr` writes without any escape and that the re.sub leaves
      alone: printable ASCII other than a quote, a bracket or a backslash. */
  predicate PlainLabel(s: string)
  {
    forall i :: 0 <= i < |s| ==> ' ' <= s[i] && s[i] as int < 0x7f && !Deleted(s[i]) && s[i] != '\\'
  }

  /** A plain label's repr is the label in single quotes. */
  lemma {:induction false} EscapePlain(s: string)
    requires PlainLabel(s)
    ensures EscapeAll(s, '\'') == s
    decreases |s|
  {
    if s != [] {
      var init, c := s[..|s| - 1], s[|s| - 1];
      EscapePlain(init);
      assert EscapeChar(c, '\'') == [c] by {
        assert ' ' <= c && c as int < 0x7f && !Deleted(c) && c != '\\';
      }
      assert s == init + [c];
    }
  }

  lemma ReprPlain(s: string)
    requires PlainLabel(s)
    ensures Repr(s) == "'" + s + "'"
  {
    assert forall i :: 0 <= i < |s| ==> s[i] != '\'';
    EscapePlain(s);
  }

  /** Stripping the joined reprs of plain labels leaves the labels joined
      by ", ". */
  lemma {:induction false} StripJoinedReprs(labels: seq<string>)
    requires forall i :: 0 <= i < |labels| ==> PlainLabel(labels[i])
    ensures Strip(Join(Reprs(labels), Comma)) == Join(labels, Comma)
    decreases |labels|
  {
    var reprs := Reprs(labels);
    if |labels| == 0 {
    } else {
      ReprPlain(labels[0]);
      StripQuoted(labels[0]);
      if |labels| > 1 {
        var rest := labels[1..];
        var restReprs := Reprs(rest);
        assert reprs[1..] == restReprs;
        StripJoinedReprs(rest);
        StripConcat(reprs[0] + Comma, Join(restReprs, Comma));
        StripConcat(reprs[0], Comma);
        StripClean(Comma);
      }
    }
  }

  /** Stripping a plain label in single quotes leaves the label. */
  lemma StripQuoted(s: string)
    requires PlainLabel(s)
    ensures Strip("'" + s + "'") == s
  {
    StripConcat("'" + s, "'");
    StripConcat("'", s);
    StripClean(s);
    assert Strip("'") == "" by {
      StripConcat([], "'");
    }
  }

  /** For plain labels the published value is the labels joined by ", ". */
  lemma FormatPlainLabels(labels: seq<string>)
    requires forall i :: 0 <= i < |labels| ==> PlainLabel(labels[i])
    ensures FormatLabels(labels) == Join(labels, Comma)
  {
    StripBracketed(Join(Reprs(labels), Comma));
    StripJoinedReprs(labels);
  }

  /** The brackets around the list go, and nothing else changes. */
  lemma StripBracketed(inner: string)
    ensures Strip("[" + inner + "]") == Strip(inner)
  {
    StripConcat("[" + inner, "]");
    StripConcat("[", inner);
    assert Strip("[") == "" by {
      StripConcat([], "[");
    }
    assert Strip("]") == "" by {
      StripConcat([], "]");
    }
  }

  // ---------------------------------------------------------------------
  // Bytes on the wire.

  newtype Byte = x: int | 0 <= x < 256

  /** The UTF-8 bytes of one character. */
  function EncodeChar(c: char): (bytes: seq<Byte>)
    ensures 1 <= |bytes| <= 4
  {
    var n := c as int;
    if n < 0x80 then [n as Byte]
    else if n < 0x800 then [(0xC0 + n / 64) as Byte, (0x80 + n % 64) as Byte]
    else if n < 0x10000 then [(0xE0 + n / 4096) as Byte, (0x80 + n / 64 % 64) as Byte, (0x80 + n % 64) as Byte]
    else [(0xF0 + n / 262144) as Byte, (0x80 + n / 4096 % 64) as Byte, (0x80 + n / 64 % 64) as Byte, (0x80 + n % 64) as Byte]
  }

  /** `s.encode()`: UTF-8. */
  function Encode(s: string): (bytes: seq<Byte>)
    ensures |bytes| >= |s|
    decreases |s|
  {
    if s == [] then [] else Encode(s[..|s| - 1]) + EncodeChar(s[|s| - 1])
  }

  /** A character outside ASCII encodes to bytes that all have the top bit
      set, so none of them reads as an ASCII character such as ',' or ' '. */
  lemma NonAsciiBytesHigh(c: char)
    requires c as int >= 0x80
    ensures forall k :: 0 <= k < |EncodeChar(c)| ==> EncodeChar(c)[k] >= 0x80
  {
  }

  /** The app's decoding: one character per byte. */
  function BinaryString(bytes: seq<Byte>): (s: string)
    ensures |s| == |bytes|
    ensures forall i :: 0 <= i < |bytes| ==> s[i] as int == bytes[i] as int
  {
    seq(|bytes|, i requires 0 <= i < |bytes| => bytes[i] as char)
  }

  predicate Ascii(s: string)
  {
    forall i :: 0 <= i < |s| ==> s[i] as int < 0x80
  }

  /** An ASCII string is sent as one byte per character, which the app
      turns back into the same string. */
  lemma {:induction false} AsciiRoundTrip(s: string)
    requires Ascii(s)
    ensures |Encode(s)| == |s|
    ensures BinaryString(Encode(s)) == s
    decreases |s|
  {
    if s != [] {
      AsciiRoundTrip(s[..|s| - 1]);
      var b := BinaryString(Encode(s));
      forall i | 0 <= i < |s| ensures b[i] == s[i] {
        if i < |s| - 1 {
          assert Encode(s)[i] == Encode(s[..|s| - 1])[i];
          assert BinaryString(Encode(s[..|s| - 1]))[i] == s[..|s| - 1][i];
        }
      }
    }
  }

  /** The whole path from the detector's labels to the app's list: for a
      non-empty list of plain labels none of which contains ", ", the app
      recovers exactly the labels. */
  lemma LabelsReachTheApp(labels: seq<string>)
    requires |labels| > 0
    requires forall i :: 0 <= i < |labels| ==> PlainLabel(labels[i]) && Free(labels[i], Comma)
    ensures Split(BinaryString(Encode(FormatLabels(labels))), Comma) == labels
  {
    FormatPlainLabels(labels);
    forall i | 0 <= i < |labels|
      ensures Ascii(labels[i])
    {
      assert PlainLabel(labels[i]);
    }
    JoinAscii(labels);
    AsciiRoundTrip(Join(labels, Comma));
    SplitJoin(labels);
  }

  /** Joining ASCII strings with ", " gives an ASCII string. */
  lemma {:induction false} JoinAscii(labels: seq<string>)
    requires forall i :: 0 <= i < |labels| ==> Ascii(labels[i])
    ensures Ascii(Join(labels, Comma))
    decreases |labels|
  {
    if |labels| > 1 {
      JoinAscii(labels[1..]);
    }
  }
}
