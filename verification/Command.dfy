/** The subscriber's command line: `strtok` over a mutable buffer and the request that
    a command turns into. */
module Command {
  import opened Stream
  import opened Wire

  /** C's `char`. */
  type cchar = c: char | c as int < 256 witness 'a'

  const NUL: cchar := '\0'

  datatype Outcome = SubscribeEntered | ExitEntered | InvalidEntered

  predicate IsDelimiter(c: char) {
    c == ' ' || c == '\n'
  }

  predicate Blank(s: string) {
    forall c :: c in s ==> IsDelimiter(c)
  }

  predicate IsWord(s: string) {
    s != "" && forall c :: c in s ==> !IsDelimiter(c)
  }

  function WordEnd(s: string, i: nat): (j: nat)
    requires i <= |s|
    ensures i <= j <= |s| && (forall k :: i <= k < j ==> !IsDelimiter(s[k])) && (j < |s| ==> IsDelimiter(s[j]))
    decreases |s| - i
  {
    if i == |s| || IsDelimiter(s[i]) then i else WordEnd(s, i + 1)
  }

  /** The words of a line: its maximal runs without delimiters. */
  function Words(s: string): seq<string>
    decreases |s|
  {
    if s == "" then []
    else if IsDelimiter(s[0]) then Words(s[1..])
    else [s[..WordEnd(s, 0)]] + Words(s[WordEnd(s, 0)..])
  }

  lemma {:induction false} WordEndUnique(s: string, i: nat, j: nat)
    requires i <= j <= |s| && (forall k :: i <= k < j ==> !IsDelimiter(s[k])) && (j < |s| ==> IsDelimiter(s[j]))
    ensures WordEnd(s, i) == j
    decreases j - i
  {
  }

  lemma {:induction false} SkipBlank(blank: string, s: string)
    requires Blank(blank)
    ensures Words(blank + s) == Words(s)
  {
    if blank == "" {
      assert blank + s == s;
    } else {
      assert blank[0] in blank && forall c :: c in blank[1..] ==> c in blank;
      SkipBlank(blank[1..], s);
      assert (blank + s)[1..] == blank[1..] + s;
    }
  }

  /** The first word ends at a delimiter or at the end of the line. */
  lemma FirstWord(word: string, rest: string)
    requires IsWord(word) && (rest == "" || IsDelimiter(rest[0]))
    ensures Words(word + rest) == [word] + Words(rest)
  {
    var s := word + rest;
    forall k | 0 <= k < |word|
      ensures !IsDelimiter(s[k])
    {
      assert word[k] in word;
    }
    WordEndUnique(s, 0, |word|);
    assert s[..|word|] == word && s[|word|..] == rest;
  }

  /** Two words are found whatever the runs of delimiters around them. */
  lemma TwoWords(lead: string, word: string, gap: string, topic: string, rest: string)
    requires Blank(lead) && IsWord(word) && Blank(gap) && gap != "" && IsWord(topic)
    requires rest == "" || IsDelimiter(rest[0])
    ensures Words(lead + (word + (gap + (topic + rest)))) == [word, topic] + Words(rest)
  {
    SkipBlank(lead, word + (gap + (topic + rest)));
    assert gap[0] in gap;
    FirstWord(word, gap + (topic + rest));
    SkipBlank(gap, topic + rest);
    FirstWord(topic, rest);
  }

  /** `strtok`: the text not yet handed out lies between `position` and the NUL at `end`. */
  class Tokenizer {
    const buffer: array<cchar>
    var position: nat
    ghost const end: nat

    ghost predicate Valid()
      reads this, buffer
    {
      && position <= end < buffer.Length && buffer[end] == NUL
      && forall k :: position <= k < end ==> buffer[k] != NUL
    }

    ghost function Rest(): string
      requires Valid()
      reads this, buffer
    {
      buffer[position..end]
    }

    constructor (buffer: array<cchar>, ghost end: nat)
      requires end < buffer.Length && buffer[end] == NUL && forall k :: 0 <= k < end ==> buffer[k] != NUL
      ensures Valid() && Rest() == buffer[..end] && this.buffer == buffer
    {
      this.buffer, this.position, this.end := buffer, 0, end;
    }

    /** Moves to the first character that is no delimiter. */
    method SkipDelimiters()
      requires Valid()
      modifies this`position
      ensures Valid() && Words(Rest()) == Words(old(Rest()))
      ensures position >= old(position)
      ensures position == end || !IsDelimiter(buffer[position])
    {
      hide Words;
      while buffer[position] != NUL && IsDelimiter(buffer[position])
        invariant Valid() && position >= old(position)
        invariant Words(Rest()) == Words(old(Rest()))
        decreases end - position
      {
        DropDelimiter(Rest());
        assert Rest()[1..] == buffer[position + 1..end];
        position := position + 1;
      }
    }

    /** Skips delimiters, then overwrites the delimiter after the word with NUL. */
    method Next() returns (found: bool, token: seq<cchar>, ghost start: nat)
      requires Valid()
      modifies this, buffer
      ensures Valid()
      ensures found <==> Words(old(Rest())) != []
      ensures found ==> token == Words(old(Rest()))[0] && Words(Rest()) == Words(old(Rest()))[1..]
      ensures NUL !in token && |token| + start <= end
      ensures buffer[start..start + |token|] == token
      ensures found ==> buffer[start + |token|] == NUL
      ensures forall k :: 0 <= k < buffer.Length && (found ==> k != start + |token|) ==> buffer[k] == old(buffer[k])
    {
      hide Words, IsWord;
      SkipDelimiters();
      start := position;
      token := buffer[position..position];
      if buffer[position] == NUL {
        assert Rest() == "";
        NoWords();
        return false, token, start;
      }
      var from := position;
      ghost var rest := Rest();
      SkipWord();
      found, token := true, buffer[from..position];
      assert rest == token + Rest();
      assert rest[..|token|] == token && rest[|token|..] == Rest();
      FirstWordOf(rest, |token|);
      Terminate();
      assert buffer[from..from + |token|] == token;
    }

    /** Ends the word here: the delimiter after it, if any, becomes a NUL and is passed. */
    method Terminate()
      requires Valid() && (position == end || IsDelimiter(buffer[position]))
      modifies this`position, buffer
      ensures Valid() && Words(Rest()) == Words(old(Rest()))
      ensures buffer[old(position)] == NUL
      ensures forall k :: 0 <= k < buffer.Length && k != old(position) ==> buffer[k] == old(buffer[k])
    {
      hide Words;
      if buffer[position] != NUL {
        DropDelimiter(Rest());
        assert Rest()[1..] == buffer[position + 1..end];
        buffer[position] := NUL;
        position := position + 1;
        assert Rest() == old(Rest())[1..];
      }
    }

    /** Moves to the end of the word, the next delimiter or the NUL. */
    method SkipWord()
      requires Valid() && position < end && !IsDelimiter(buffer[position])
      modifies this`position
      ensures Valid() && position > old(position)
      ensures forall k :: old(position) <= k < position ==> !IsDelimiter(buffer[k]) && buffer[k] != NUL
      ensures position == end || IsDelimiter(buffer[position])
    {
      while buffer[position] != NUL && !IsDelimiter(buffer[position])
        invariant Valid() && position >= old(position)
        invariant forall k :: old(position) <= k < position ==> !IsDelimiter(buffer[k]) && buffer[k] != NUL
        decreases end - position
      {
        position := position + 1;
      }
    }
  }

  lemma NoWords()
    ensures Words("") == []
  {
  }

  lemma DropDelimiter(s: string)
    requires s != "" && IsDelimiter(s[0])
    ensures Words(s) == Words(s[1..])
  {
  }

  lemma FirstWordOf(s: string, n: nat)
    requires 0 < n <= |s| && (forall k :: 0 <= k < n ==> !IsDelimiter(s[k])) && (n < |s| ==> IsDelimiter(s[n]))
    ensures Words(s) == [s[..n]] + Words(s[n..])
  {
  }

  function Truncated(topic: string): string {
    if |topic| <= MAX_TOPIC_LENGTH then topic else topic[..MAX_TOPIC_LENGTH]
  }

  /** What a line means, by its words alone. */
  function OutcomeOf(words: seq<string>): Outcome
    requires words != []
  {
    if words[0] == "exit" then ExitEntered
    else if (words[0] == "subscribe" || words[0] == "unsubscribe") && |words| > 1 then SubscribeEntered
    else InvalidEntered
  }

  /** The request is what the words ask for, as the server reads it. */
  ghost predicate Encodes(request: SubscribeRequest, words: seq<string>) {
    && |words| > 1 && request.Packed() && 0 in request.topic
    && request.operation == (if words[0] == "subscribe" then OPERATION_SUBSCRIBE else OPERATION_UNSUBSCRIBE)
    && CString(request.topic) == Truncated(words[1])
    && forall k :: |Truncated(words[1])| <= k < |request.topic| ==> request.topic[k] == 0
  }

  /** `strncpy` and the final NUL: the field holds the first 50 characters, then NULs. */
  method FillTopic(token: seq<cchar>) returns (topic: seq<byte>)
    requires NUL !in token
    ensures |topic| == MAX_TOPIC_LENGTH + 1 && 0 in topic
    ensures CString(topic) == Truncated(token)
    ensures forall k :: |Truncated(token)| <= k < |topic| ==> topic[k] == 0
  {
    var field := new byte[MAX_TOPIC_LENGTH + 1];
    for i := 0 to MAX_TOPIC_LENGTH
      invariant forall k :: 0 <= k < i ==> field[k] == if k < |token| then token[k] as int else 0
    {
      field[i] := if i < |token| then token[i] as int else 0;
    }
    field[MAX_TOPIC_LENGTH] := 0;
    topic := field[..];
    assert topic[MAX_TOPIC_LENGTH] == 0;
    CStringSpelled(topic, Truncated(token));
  }

  /** Exits, rejects the line, or sends one request, as the words of the line say. */
  method ProcessInputCommand(line: array<cchar>, ghost end: nat, socket: Socket)
    returns (outcome: Outcome, ghost request: SubscribeRequest)
    requires end < line.Length && line[end] == NUL
    requires forall k :: 0 <= k < end ==> line[k] != NUL
    requires Words(line[..end]) != [] && socket.Valid()
    modifies line, socket`sent, socket`faults
    ensures socket.Valid() && outcome == OutcomeOf(Words(old(line[..end])))
    ensures if outcome == SubscribeEntered then
              && Encodes(request, Words(old(line[..end])))
              && socket.Out() == Push(old(socket.Out()), socket.limit, EncodeRequest(request))
            else socket.Out() == old(socket.Out())
  {
    hide Words, CString;
    request := SubscribeRequest(0, []);
    var tokens := new Tokenizer(line, end);
    ghost var words := Words(tokens.Rest());
    var found, currentToken, start := tokens.Next();
    if currentToken == "exit" {
      return ExitEntered, request;
    }
    var operation;
    if currentToken == "subscribe" {
      operation := OPERATION_SUBSCRIBE;
    } else if currentToken == "unsubscribe" {
      operation := OPERATION_UNSUBSCRIBE;
    } else {
      return InvalidEntered, request;
    }
    found, currentToken, start := tokens.Next();
    if !found {
      return InvalidEntered, request;
    }
    var topic := FillTopic(currentToken);
    request := SubscribeRequest(operation, topic);
    var rc := SendAll(socket, EncodeRequest(SubscribeRequest(operation, topic)));
    return SubscribeEntered, request;
  }

  // The same in characters and bytes.

  /** Only blanks and newlines. */
  predicate Spaces(s: string) {
    forall k :: 0 <= k < |s| ==> s[k] == ' ' || s[k] == '\n'
  }

  /** No blank and no newline, but something. */
  predicate Solid(s: string) {
    s != "" && forall k :: 0 <= k < |s| ==> s[k] != ' ' && s[k] != '\n'
  }

  /** The end of the line, or a blank or newline. */
  predicate Apart(s: string) {
    s == "" || s[0] == ' ' || s[0] == '\n'
  }

  lemma InCharacters(s: string)
    ensures Blank(s) <==> Spaces(s)
    ensures IsWord(s) <==> Solid(s)
    ensures s != "" ==> (IsDelimiter(s[0]) <==> Apart(s))
  {
    assert forall c :: c in s ==> exists k :: 0 <= k < |s| && s[k] == c;
    assert forall k :: 0 <= k < |s| ==> s[k] in s;
  }

  /** Nothing but blanks and newlines holds no word; anything else does. */
  lemma {:induction false} WordsInCharacters(s: string)
    ensures Words(s) == [] <==> Spaces(s)
  {
    if s != "" {
      InCharacters(s);
      InCharacters(s[1..]);
      if IsDelimiter(s[0]) {
        WordsInCharacters(s[1..]);
        assert Spaces(s[1..]) ==> forall k :: 1 <= k < |s| ==> s[k] == s[1..][k - 1];
      }
    }
  }

  /** What a line does: "exit" ends the program; "subscribe" and "unsubscribe" send a
      request if another word follows; everything else is invalid. */
  lemma OutcomeInCharacters(lead: string, word: string, rest: string)
    requires Spaces(lead) && Solid(word) && Apart(rest)
    ensures var words := Words(lead + (word + rest));
      && words != []
      && OutcomeOf(words) ==
           if word == "exit" then ExitEntered
           else if (word == "subscribe" || word == "unsubscribe") && !Spaces(rest) then SubscribeEntered
           else InvalidEntered
  {
    hide Words;
    InCharacters(lead);
    InCharacters(word);
    InCharacters(rest);
    SkipBlank(lead, word + rest);
    FirstWord(word, rest);
    WordsInCharacters(rest);
  }

  /** "exit" and the newline that `fgets` leaves behind it end the program. */
  lemma ExitLine()
    ensures Words("exit\n") != [] && OutcomeOf(Words("exit\n")) == ExitEntered
  {
    OutcomeInCharacters("", "exit", "\n");
    assert "" + ("exit" + "\n") == "exit\n";
  }

  /** The bytes of a request: the operation, up to 50 characters of the topic, NULs. */
  ghost predicate RequestBytes(bytes: seq<byte>, operation: byte, topic: string) {
    && |bytes| == 52 && bytes[0] == operation
    && forall k :: 0 <= k < 51 ==> bytes[k + 1] == if k < |topic| && k < 50 then topic[k] as int else 0
  }

  lemma EncodesInBytes(request: SubscribeRequest, words: seq<string>)
    requires Encodes(request, words)
    ensures RequestBytes(EncodeRequest(request), if words[0] == "subscribe" then 0 else 1, words[1])
  {
    var bytes, topic := EncodeRequest(request), Truncated(words[1]);
    CStringSpelled(request.topic, topic);
    forall k | 0 <= k < 51
      ensures bytes[k + 1] == if k < |words[1]| && k < 50 then words[1][k] as int else 0
    {
      assert bytes[k + 1] == request.topic[k];
      assert k < |topic| ==> topic[k] == words[1][k];
    }
  }

  /** From the typed line to the server: with a subscribe or unsubscribe word and a topic
      word, whatever blanks and newlines are around them, the next 52 bytes on the connection
      are the operation and the first 50 characters of the topic, and the server reads them. */
  method CommandRoundTrip(line: array<cchar>, ghost end: nat, socket: Socket,
                          ghost lead: string, ghost word: string, ghost gap: string,
                          ghost topic: string, ghost rest: string)
    returns (received: SubscribeRequest)
    requires end < line.Length && line[end] == NUL
    requires forall k :: 0 <= k < end ==> line[k] != NUL
    requires line[..end] == lead + (word + (gap + (topic + rest)))
    requires Spaces(lead) && Spaces(gap) && gap != "" && Solid(topic) && Apart(rest)
    requires word == "subscribe" || word == "unsubscribe"
    requires socket.Valid() && |socket.sent| + REQUEST_SIZE <= Stop(socket.Out(), socket.limit)
    modifies line, socket`sent, socket`faults
    ensures |socket.sent| == |old(socket.sent)| + 52 && old(socket.sent) <= socket.sent
    ensures RequestBytes(socket.sent[|old(socket.sent)|..], if word == "subscribe" then 0 else 1, topic)
    ensures received == DecodeRequest(socket.sent[|old(socket.sent)|..])
    ensures received.operation == (if word == "subscribe" then 0 else 1)
    ensures CString(received.topic) == if |topic| <= 50 then topic else topic[..50]
  {
    hide Words, CString, Blank, Spaces, Solid, IsWord, RequestBytes;
    InCharacters(lead);
    InCharacters(gap);
    InCharacters(topic);
    InCharacters(rest);
    InCharacters(word);
    CommandWords(word);
    TwoWords(lead, word, gap, topic, rest);
    var before := |socket.sent|;
    var outcome, request := ProcessInputCommand(line, end, socket);
    assert socket.sent[before..] == EncodeRequest(request);
    EncodesInBytes(request, Words(old(line[..end])));
    received := DecodeRequest(socket.sent[before..]);
  }

  lemma CommandWords(word: string)
    requires word == "subscribe" || word == "unsubscribe" || word == "exit"
    ensures Solid(word)
  {
  }

  /** The line as it is typed: a blank between the words and a newline at the end. */
  method TypedLine(line: array<cchar>, ghost end: nat, socket: Socket, ghost topic: string)
    returns (received: SubscribeRequest)
    requires end < line.Length && line[end] == NUL
    requires forall k :: 0 <= k < end ==> line[k] != NUL
    requires line[..end] == "subscribe " + topic + "\n" && Solid(topic)
    requires socket.Valid() && |socket.sent| + REQUEST_SIZE <= Stop(socket.Out(), socket.limit)
    modifies line, socket`sent, socket`faults
    ensures received.operation == 0
    ensures CString(received.topic) == if |topic| <= 50 then topic else topic[..50]
  {
    hide Solid, CString, RequestBytes;
    assert "subscribe " + topic + "\n" == "" + ("subscribe" + (" " + (topic + "\n")));
    received := CommandRoundTrip(line, end, socket, "", "subscribe", " ", topic, "\n");
  }
}
