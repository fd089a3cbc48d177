/** ps1/ps1/src/twitter/Filter.java: order-preserving filters over a list of tweets, by author
    (ignoring case), by an inclusive timespan, and by whole-word occurrence of any of a list of
    words (ignoring case). Each method is a loop appending to a fresh list; Kept is the list it
    builds, and the lemmas show that list is exactly the matching tweets, in input order. */
module TwitterFilter {

  /** A tweet; the timestamp is an instant counted in any fixed unit. */
  datatype Tweet = Tweet(id: int, author: string, text: string, timestamp: int)

  /** An interval of instants, both ends included. */
  datatype Timespan = Timespan(start: int, end: int)

  /** The condition each filter keeps a tweet by. */
  datatype Condition = WrittenBy(username: string) | During(timespan: Timespan) | Mentions(words: seq<string>)

  /** toLowerCase on one character: A..Z become a..z, every other character is kept. */
  function LowerChar(c: char): char
  {
    if 'A' <= c <= 'Z' then (c as int - 'A' as int + 'a' as int) as char else c
  }

  /** toLowerCase on a string, character by character. */
  function ToLower(s: string): (r: string)
    ensures |r| == |s| && forall i | 0 <= i < |s| :: r[i] == LowerChar(s[i])
  {
    seq(|s|, i requires 0 <= i < |s| => LowerChar(s[i]))
  }

  /** A character of a regex word (\w): a letter, a digit or '_'. */
  predicate IsWordChar(c: char)
  {
    'a' <= c <= 'z' || 'A' <= c <= 'Z' || '0' <= c <= '9' || c == '_'
  }

  /** A regex word boundary (\b) at position i of text: a word character on exactly one side,
      the outside of the text counting as a non-word character. */
  predicate BoundaryAt(text: string, i: nat)
    requires i <= |text|
  {
    (i > 0 && IsWordChar(text[i - 1])) != (i < |text| && IsWordChar(text[i]))
  }

  /** word occurs at position i with a word boundary on both sides. */
  predicate MatchAt(text: string, word: string, i: nat)
    requires i + |word| <= |text|
  {
    text[i..i + |word|] == word && BoundaryAt(text, i) && BoundaryAt(text, i + |word|)
  }

  /** What the pattern \b quote(word) \b finds in text: a whole-word occurrence. */
  predicate ContainsWord(text: string, word: string)
  {
    exists i: nat | i + |word| <= |text| :: MatchAt(text, word, i)
  }

  /** Whether a filter keeps tweet t. */
  predicate Holds(c: Condition, t: Tweet)
  {
    match c
    case WrittenBy(username) => ToLower(t.author) == ToLower(username)
    case During(span) => span.start <= t.timestamp <= span.end
    case Mentions(words) => exists w | w in words :: ContainsWord(ToLower(t.text), ToLower(w))
  }

  /** The tweets of the list that satisfy c, in the order of the list. */
  function Kept(tweets: seq<Tweet>, c: Condition): seq<Tweet>
  {
    if tweets == [] then []
    else Kept(tweets[..|tweets| - 1], c) + (if Holds(c, tweets[|tweets| - 1]) then [tweets[|tweets| - 1]] else [])
  }

  /** All and only the matching tweets: a tweet is kept exactly when it is in the list and
      satisfies the condition. */
  lemma {:induction false} KeptMembership(tweets: seq<Tweet>, c: Condition)
    ensures forall t :: t in Kept(tweets, c) <==> t in tweets && Holds(c, t)
  {
    if tweets != [] {
      var init := tweets[..|tweets| - 1];
      KeptMembership(init, c);
      assert tweets == init + [tweets[|tweets| - 1]];
    }
  }

  /** The positions of the tweets of the list that satisfy c, from first to last. */
  ghost function KeptPositions(tweets: seq<Tweet>, c: Condition): seq<nat>
  {
    if tweets == [] then []
    else KeptPositions(tweets[..|tweets| - 1], c) + (if Holds(c, tweets[|tweets| - 1]) then [|tweets| - 1] else [])
  }

  /** Order is kept: the result is the input at strictly increasing positions, and every
      position whose tweet satisfies the condition is one of them. */
  lemma KeptInOrder(tweets: seq<Tweet>, c: Condition) returns (positions: seq<nat>)
    ensures |positions| == |Kept(tweets, c)|
    ensures forall k | 0 <= k < |positions| :: positions[k] < |tweets| && Kept(tweets, c)[k] == tweets[positions[k]]
    ensures forall k, l | 0 <= k < l < |positions| :: positions[k] < positions[l]
    ensures forall i | 0 <= i < |tweets| && Holds(c, tweets[i]) :: i in positions
  {
    positions := KeptPositions(tweets, c);
    KeptAtPositions(tweets, c);
    KeptPositionsIncrease(tweets, c);
    KeptPositionsComplete(tweets, c);
  }

  /** The kept tweets are the tweets at the kept positions. */
  lemma {:induction false} KeptAtPositions(tweets: seq<Tweet>, c: Condition)
    ensures |KeptPositions(tweets, c)| == |Kept(tweets, c)|
    ensures forall k | 0 <= k < |KeptPositions(tweets, c)| ::
      KeptPositions(tweets, c)[k] < |tweets| && Kept(tweets, c)[k] == tweets[KeptPositions(tweets, c)[k]]
  {
    if tweets != [] {
      var n := |tweets| - 1;
      var init := tweets[..n];
      KeptAtPositions(init, c);
      var earlier, kept := KeptPositions(init, c), Kept(init, c);
      forall k | 0 <= k < |earlier|
        ensures earlier[k] < n && kept[k] == tweets[earlier[k]]
      {
        assert init[earlier[k]] == tweets[earlier[k]];
      }
    }
  }

  /** The kept positions strictly increase. */
  lemma {:induction false} KeptPositionsIncrease(tweets: seq<Tweet>, c: Condition)
    ensures forall k | 0 <= k < |KeptPositions(tweets, c)| :: KeptPositions(tweets, c)[k] < |tweets|
    ensures forall k, l | 0 <= k < l < |KeptPositions(tweets, c)| :: KeptPositions(tweets, c)[k] < KeptPositions(tweets, c)[l]
  {
    if tweets != [] {
      KeptPositionsIncrease(tweets[..|tweets| - 1], c);
    }
  }

  /** Every position whose tweet satisfies c is kept. */
  lemma {:induction false} KeptPositionsComplete(tweets: seq<Tweet>, c: Condition)
    ensures forall i | 0 <= i < |tweets| && Holds(c, tweets[i]) :: i in KeptPositions(tweets, c)
  {
    if tweets != [] {
      var n := |tweets| - 1;
      var init := tweets[..n];
      KeptPositionsComplete(init, c);
      forall i | 0 <= i < n && Holds(c, tweets[i])
        ensures i in KeptPositions(tweets, c)
      {
        assert init[i] == tweets[i];
      }
    }
  }

  /** Without words, containing keeps nothing. */
  lemma {:induction false} NoWordsKeepNothing(tweets: seq<Tweet>)
    ensures Kept(tweets, Mentions([])) == []
  {
    if tweets != [] {
      NoWordsKeepNothing(tweets[..|tweets| - 1]);
    }
  }

  /** writtenBy ignores the case of the username it is given. */
  lemma WrittenByIgnoresCase(tweets: seq<Tweet>, username: string)
    ensures Kept(tweets, WrittenBy(ToLower(username))) == Kept(tweets, WrittenBy(username))
  {
    assert ToLower(ToLower(username)) == ToLower(username);
    KeptSameCondition(tweets, WrittenBy(ToLower(username)), WrittenBy(username));
  }

  /** Two conditions that agree on every tweet keep the same tweets. */
  lemma {:induction false} KeptSameCondition(tweets: seq<Tweet>, c: Condition, d: Condition)
    requires forall t :: Holds(c, t) == Holds(d, t)
    ensures Kept(tweets, c) == Kept(tweets, d)
  {
    if tweets != [] {
      KeptSameCondition(tweets[..|tweets| - 1], c, d);
    }
  }

  /** One more input tweet: the kept prefix grows by it exactly when it matches. */
  lemma KeptStep(tweets: seq<Tweet>, c: Condition, i: nat)
    requires i < |tweets|
    ensures Kept(tweets[..i + 1], c) == Kept(tweets[..i], c) + (if Holds(c, tweets[i]) then [tweets[i]] else [])
  {
    assert tweets[..i + 1][..i] == tweets[..i];
  }

  /** writtenBy: the tweets whose author, lowercased, equals the lowercased username. */
  method FilterWrittenBy(tweets: seq<Tweet>, username: string) returns (result: seq<Tweet>)
    ensures result == Kept(tweets, WrittenBy(username))
  {
    result := [];
    var i := 0;
    while i < |tweets|
      invariant 0 <= i <= |tweets|
      invariant result == Kept(tweets[..i], WrittenBy(username))
    {
      KeptStep(tweets, WrittenBy(username), i);
      if ToLower(tweets[i].author) == ToLower(username) {
        result := result + [tweets[i]];
      }
      i := i + 1;
    }
    assert tweets[..|tweets|] == tweets;
  }

  /** inTimespan: the tweets neither before the start nor after the end. */
  method InTimespan(tweets: seq<Tweet>, timespan: Timespan) returns (result: seq<Tweet>)
    ensures result == Kept(tweets, During(timespan))
  {
    result := [];
    var i := 0;
    while i < |tweets|
      invariant 0 <= i <= |tweets|
      invariant result == Kept(tweets[..i], During(timespan))
    {
      KeptStep(tweets, During(timespan), i);
      var tweetTime := tweets[i].timestamp;
      if !(tweetTime < timespan.start) && !(tweetTime > timespan.end) {
        result := result + [tweets[i]];
      }
      i := i + 1;
    }
    assert tweets[..|tweets|] == tweets;
  }

  /** containing: nothing for an empty word list; otherwise the tweets whose lowercased text
      has a whole-word occurrence of some lowercased word, found by an inner loop that stops at
      the first match. */
  method Containing(tweets: seq<Tweet>, words: seq<string>) returns (result: seq<Tweet>)
    ensures result == Kept(tweets, Mentions(words))
  {
    if words == [] {
      NoWordsKeepNothing(tweets);
      return [];
    }
    result := [];
    var i := 0;
    while i < |tweets|
      invariant 0 <= i <= |tweets|
      invariant result == Kept(tweets[..i], Mentions(words))
    {
      KeptStep(tweets, Mentions(words), i);
      var containsWord := MentionsAny(ToLower(tweets[i].text), words);
      if containsWord {
        result := result + [tweets[i]];
      }
      i := i + 1;
    }
    assert tweets[..|tweets|] == tweets;
  }

  /** The inner loop of containing: look for each lowercased word in the lowercased text, and
      stop at the first whole-word occurrence. */
  method MentionsAny(tweetText: string, words: seq<string>) returns (containsWord: bool)
    ensures containsWord <==> exists w | w in words :: ContainsWord(tweetText, ToLower(w))
  {
    containsWord := false;
    var j := 0;
    while j < |words|
      invariant 0 <= j <= |words|
      invariant forall k | 0 <= k < j :: !ContainsWord(tweetText, ToLower(words[k]))
    {
      var searchWord := ToLower(words[j]);
      if ContainsWord(tweetText, searchWord) {
        containsWord := true;
        return;
      }
      j := j + 1;
    }
  }
}
