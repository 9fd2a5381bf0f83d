/** Matching a message text to one of the remote-status commands. Texts are C
    strings: they end at their first NUL. */
module Command {
  import opened Bits

  datatype Kind = NoCommand | Status | Battery | Help

  const SLASH: byte := 0x2f
  const STATUS_WORD: seq<byte> := [0x73, 0x74, 0x61, 0x74, 0x75, 0x73]
  const BATTERY_WORD: seq<byte> := [0x62, 0x61, 0x74, 0x74, 0x65, 0x72, 0x79]
  const BAT_WORD: seq<byte> := [0x62, 0x61, 0x74]
  const HELP_WORD: seq<byte> := [0x68, 0x65, 0x6c, 0x70]

  function LowerByte(c: byte): byte {
    if 0x41 <= c <= 0x5a then c + 0x20 else c
  }

  function Lower(s: seq<byte>): (r: seq<byte>)
    ensures |r| == |s|
  {
    seq(|s|, i requires 0 <= i < |s| => LowerByte(s[i]))
  }

  /** The text a character buffer holds: everything before its first NUL. */
  function CString(s: seq<byte>): (r: seq<byte>)
    ensures |r| <= |s|
  {
    if s == [] || s[0] == 0 then [] else [s[0]] + CString(s[1..])
  }

  lemma {:induction false} CStringEndsAtNul(s: seq<byte>)
    ensures CString(s) == s[..|CString(s)|] && 0 !in CString(s)
    ensures |CString(s)| < |s| ==> s[|CString(s)|] == 0
  {
    if s != [] && s[0] != 0 {
      CStringEndsAtNul(s[1..]);
    }
  }

  /** Whether `text` spells `word`, in any mixture of cases. */
  predicate Spells(text: seq<byte>, word: seq<byte>) {
    Lower(text) == Lower(word)
  }

  function WithoutSlash(text: seq<byte>): seq<byte> {
    if text != [] && text[0] == SLASH then text[1..] else text
  }

  /** The characters a C loop reads, the terminator included. */
  function CharAt(s: seq<byte>, i: nat): byte {
    if i < |s| then s[i] else 0
  }

  /** The character-by-character comparison of two C strings. */
  method EqualIgnoringCase(a: seq<byte>, b: seq<byte>) returns (same: bool)
    requires 0 !in a && 0 !in b
    ensures same <==> Spells(a, b)
  {
    var i := 0;
    while CharAt(a, i) != 0 && CharAt(b, i) != 0
      invariant i <= |a| && i <= |b|
      invariant forall k | 0 <= k < i :: LowerByte(a[k]) == LowerByte(b[k])
      decreases |a| - i
    {
      if LowerByte(CharAt(a, i)) != LowerByte(CharAt(b, i)) {
        assert Lower(a)[i] != Lower(b)[i];
        return false;
      }
      i := i + 1;
    }
    same := CharAt(a, i) == CharAt(b, i);
    if i < |a| {
      NotNul(a, i);
    }
    if i < |b| {
      NotNul(b, i);
    }
  }

  lemma NotNul(s: seq<byte>, i: nat)
    requires 0 !in s && i < |s|
    ensures s[i] != 0
  {
    assert s[i] in s;
  }

  method Match(content: seq<byte>) returns (kind: Kind)
    ensures var text := WithoutSlash(CString(content));
      && (kind == Status <==> Spells(text, STATUS_WORD))
      && (kind == Battery <==> Spells(text, BATTERY_WORD) || Spells(text, BAT_WORD))
      && (kind == Help <==> Spells(text, HELP_WORD))
    ensures kind == Matched(content)
  {
    CStringEndsAtNul(content);
    var text := CString(content);
    if CharAt(text, 0) == SLASH {
      text := text[1..];
    }
    WordsDiffer(text);
    var same := EqualIgnoringCase(text, STATUS_WORD);
    if same {
      return Status;
    }
    same := EqualIgnoringCase(text, BATTERY_WORD);
    if same {
      return Battery;
    }
    same := EqualIgnoringCase(text, BAT_WORD);
    if same {
      return Battery;
    }
    same := EqualIgnoringCase(text, HELP_WORD);
    if same {
      return Help;
    }
    return NoCommand;
  }

  /** The command of a message body, for use in specifications. */
  function Matched(content: seq<byte>): Kind {
    var text := WithoutSlash(CString(content));
    if Spells(text, STATUS_WORD) then Status
    else if Spells(text, BATTERY_WORD) || Spells(text, BAT_WORD) then Battery
    else if Spells(text, HELP_WORD) then Help
    else NoCommand
  }

  lemma WordsDiffer(text: seq<byte>)
    ensures !(Spells(text, STATUS_WORD) && (Spells(text, BATTERY_WORD) || Spells(text, BAT_WORD)))
    ensures !(Spells(text, STATUS_WORD) && Spells(text, HELP_WORD))
    ensures !(Spells(text, HELP_WORD) && (Spells(text, BATTERY_WORD) || Spells(text, BAT_WORD)))
  {
    assert |Lower(STATUS_WORD)| == 6 && |Lower(BATTERY_WORD)| == 7 && |Lower(BAT_WORD)| == 3 && |Lower(HELP_WORD)| == 4;
  }

  /** Case never matters, and neither does one leading slash. */
  lemma MatchIgnoresCaseAndSlash(text: seq<byte>, other: seq<byte>)
    requires 0 !in text && 0 !in other && Lower(text) == Lower(other) && CharAt(text, 0) != SLASH
    ensures Matched(other) == Matched(text) && Matched([SLASH] + other) == Matched(text)
  {
    WholeString(text);
    WholeString(other);
    WholeString([SLASH] + other);
    assert ([SLASH] + other)[1..] == other;
    if other != [] {
      assert Lower(text)[0] == Lower(other)[0];
      assert LowerByte(text[0]) == LowerByte(other[0]);
      assert other[0] != SLASH;
    }
  }

  /** `text` is `word`, each letter of either case. */
  predicate InAnyCase(text: seq<byte>, word: string) {
    |text| == |word| && forall i | 0 <= i < |word| :: text[i] == word[i] as int || text[i] == word[i] as int - 32
  }

  lemma SpellsIff(text: seq<byte>, word: seq<byte>, letters: string)
    requires |word| == |letters|
    requires forall i | 0 <= i < |word| :: 'a' <= letters[i] <= 'z' && word[i] == letters[i] as int
    ensures Spells(text, word) <==> InAnyCase(text, letters)
  {
    if Spells(text, word) {
      forall i | 0 <= i < |word| ensures text[i] == letters[i] as int || text[i] == letters[i] as int - 32 {
        assert Lower(text)[i] == Lower(word)[i];
      }
    }
    if InAnyCase(text, letters) {
      assert forall i | 0 <= i < |word| :: Lower(text)[i] == Lower(word)[i];
    }
  }

  /** The words, letter by letter: each command is recognised for its words in any
      case, after at most one slash, and for nothing else. */
  lemma CommandWords(text: seq<byte>)
    requires 0 !in text
    ensures var word := if text != [] && text[0] == '/' as int then text[1..] else text;
      && (Matched(text) == Status <==> InAnyCase(word, "status"))
      && (Matched(text) == Battery <==> InAnyCase(word, "battery") || InAnyCase(word, "bat"))
      && (Matched(text) == Help <==> InAnyCase(word, "help"))
  {
    WholeString(text);
    var word := WithoutSlash(text);
    SpellsIff(word, STATUS_WORD, "status");
    SpellsIff(word, BATTERY_WORD, "battery");
    SpellsIff(word, BAT_WORD, "bat");
    SpellsIff(word, HELP_WORD, "help");
    WordsDiffer(word);
  }

  lemma {:induction false} WholeString(s: seq<byte>)
    requires 0 !in s
    ensures CString(s) == s
  {
    if s != [] {
      assert s[0] in s;
      WholeString(s[1..]);
    }
  }

  /** No command is longer than eight characters, slash included. */
  lemma LongTextsAreNoCommand(content: seq<byte>)
    requires |CString(content)| > 8
    ensures Matched(content) == NoCommand
  {
    assert |Lower(STATUS_WORD)| == 6 && |Lower(BATTERY_WORD)| == 7 && |Lower(BAT_WORD)| == 3 && |Lower(HELP_WORD)| == 4;
  }
}
