/**
 * The notification text: the group's message, or the default one, with the
 * four tokens replaced by chained `str.replace` calls in the order author,
 * words, server, channel. Each call scans the output of the previous one, so a
 * value substituted early is scanned again by the later replacements.
 */
module Templating {
  import opened Wrappers
  import opened Text

  const AuthorToken: string := "{{author}}"
  const WordsToken: string := "{{words}}"
  const ServerToken: string := "{{server}}"
  const ChannelToken: string := "{{channel}}"
  const WordSeparator: string := " and "
  const DefaultHead: string := "Snitching on "
  const DefaultMiddle: string := " for saying "
  const DefaultTemplate: string := DefaultHead + AuthorToken + (DefaultMiddle + WordsToken)

  /** `base_msg or default`: an unset or empty group message falls back to the default. */
  function BaseMessage(message: Option<string>): (r: string)
    ensures message.Some? && message.value != [] ==> r == message.value
    ensures message.None? || message.value == [] ==> r == DefaultTemplate
  {
    if message.Some? && message.value != [] then message.value else DefaultTemplate
  }

  /** The body that `_notify_words` sends: `words` in the order the match set is iterated. */
  function Render(message: Option<string>, author: string, words: seq<string>, server: string, channel: string): string
  {
    var base := BaseMessage(message);
    var withAuthor := Replace(base, AuthorToken, author);
    var withWords := Replace(withAuthor, WordsToken, Join(words, WordSeparator));
    var withServer := Replace(withWords, ServerToken, server);
    Replace(withServer, ChannelToken, channel)
  }

  /** A pattern cannot occur at a position whose character differs from its first one. */
  lemma NoOccurrenceWithoutFirstChar(p: string, q: string, pat: string, i: int)
    requires |pat| > 0 && pat[0] !in p && 0 <= i < |p|
    ensures !OccursAt(p + q, pat, i)
  {
    assert p[i] in p;
    if i + |pat| <= |p + q| {
      assert (p + q)[i..i + |pat|][0] == p[i];
    }
  }

  /** Text free of the pattern's first character is copied unchanged in front of the rest. */
  lemma ReplaceSkips(p: string, q: string, pat: string, rep: string)
    requires |pat| > 0 && pat[0] !in p
    ensures Replace(p + q, pat, rep) == p + Replace(q, pat, rep)
  {
    forall i | 0 <= i < |p| ensures !OccursAt(p + q, pat, i) {
      NoOccurrenceWithoutFirstChar(p, q, pat, i);
    }
    ReplaceAfterPrefix(p, q, pat, rep);
  }

  /** Text free of the pattern's first character is returned unchanged. */
  lemma ReplaceNoFirstChar(s: string, pat: string, rep: string)
    requires |pat| > 0 && pat[0] !in s
    ensures Replace(s, pat, rep) == s
  {
    ReplaceSkips(s, [], pat, rep);
    assert s + [] == s;
  }

  /** An occurrence at the very start is replaced, and the scan resumes after it. */
  lemma ReplaceAtStart(q: string, pat: string, rep: string)
    requires |pat| > 0
    ensures Replace(pat + q, pat, rep) == rep + Replace(q, pat, rep)
  {
    assert (pat + q)[..|pat|] == pat;
    assert (pat + q)[|pat|..] == q;
  }

  /** No token is present in the text, so no replacement changes it. */
  predicate NoTokens(s: string)
  {
    && !Contains(s, AuthorToken) && !Contains(s, WordsToken)
    && !Contains(s, ServerToken) && !Contains(s, ChannelToken)
  }

  /** A group message holding none of the four tokens is sent exactly as written. */
  lemma RenderWithoutTokens(message: string, author: string, words: seq<string>, server: string, channel: string)
    requires message != [] && NoTokens(message)
    ensures Render(Some(message), author, words, server, channel) == message
  {
    ReplaceAbsent(message, AuthorToken, author);
    ReplaceAbsent(message, WordsToken, Join(words, WordSeparator));
    ReplaceAbsent(message, ServerToken, server);
    ReplaceAbsent(message, ChannelToken, channel);
  }

  /**
   * With no group message, the default template names the author and the
   * words joined with " and " (for values that carry no `{` and so cannot
   * contain a token).
   */
  lemma RenderDefault(message: Option<string>, author: string, words: seq<string>, server: string, channel: string)
    requires message.None? || message.value == []
    requires '{' !in author && '{' !in Join(words, WordSeparator)
    ensures Render(message, author, words, server, channel)
            == "Snitching on " + author + " for saying " + Join(words, WordSeparator)
  {
    var w := Join(words, WordSeparator);
    var s0 := Replace(DefaultTemplate, AuthorToken, author);
    DefaultAuthorStep(author);
    var s1 := Replace(s0, WordsToken, w);
    DefaultWordsStep(author, w);
    DefaultIsBraceFree(author, w);
    ReplaceNoFirstChar(s1, ServerToken, server);
    ReplaceNoFirstChar(s1, ChannelToken, channel);
    assert Render(message, author, words, server, channel) == s1;
    assert s1 == "Snitching on " + author + " for saying " + w;
  }

  lemma DefaultIsBraceFree(author: string, w: string)
    requires '{' !in author && '{' !in w
    ensures '{' !in DefaultHead + author + (DefaultMiddle + w)
  {
    assert '{' !in DefaultHead && '{' !in DefaultMiddle;
  }

  /** First replacement on the default template: the author. */
  lemma DefaultAuthorStep(author: string)
    ensures Replace(DefaultTemplate, AuthorToken, author) == DefaultHead + author + (DefaultMiddle + WordsToken)
  {
    TailHasNoAuthor(author);
    assert '{' !in DefaultHead;
    ReplaceTokenAfter(DefaultHead, DefaultMiddle + WordsToken, AuthorToken, author);
  }

  /** Replacing the one token between a `{`-free head and a tail the replacement leaves alone. */
  lemma ReplaceTokenAfter(head: string, tail: string, token: string, value: string)
    requires |token| > 0 && token[0] !in head
    requires Replace(tail, token, value) == tail
    ensures Replace(head + token + tail, token, value) == head + value + tail
  {
    assert head + token + tail == head + (token + tail);
    ReplaceSkips(head, token + tail, token, value);
    ReplaceAtStart(tail, token, value);
    assert head + (value + tail) == head + value + tail;
  }

  lemma TailHasNoAuthor(author: string)
    ensures Replace(DefaultMiddle + WordsToken, AuthorToken, author) == DefaultMiddle + WordsToken
  {
    assert Replace(WordsToken, AuthorToken, author) == WordsToken;
    assert '{' !in DefaultMiddle;
    ReplaceSkips(DefaultMiddle, WordsToken, AuthorToken, author);
  }

  /** Second replacement on the default template: the joined words, after an author free of `{`. */
  lemma DefaultWordsStep(author: string, w: string)
    requires '{' !in author
    ensures Replace(DefaultHead + author + (DefaultMiddle + WordsToken), WordsToken, w)
            == DefaultHead + author + (DefaultMiddle + w)
  {
    var pre := DefaultHead + author;
    assert '{' !in DefaultHead && '{' !in DefaultMiddle;
    assert '{' !in pre;
    ReplaceSkips(pre, DefaultMiddle + WordsToken, WordsToken, w);
    ReplaceSkips(DefaultMiddle, WordsToken, WordsToken, w);
    ReplaceAtStart([], WordsToken, w);
    assert WordsToken + [] == WordsToken;
    assert w + [] == w;
  }

  /** The default message for one word: author A who said "wifi" gives "Snitching on A for saying wifi". */
  lemma RenderDefaultOneWord(author: string, word: string, server: string, channel: string)
    requires '{' !in author && '{' !in word
    ensures Render(None, author, [word], server, channel) == "Snitching on " + author + " for saying " + word
  {
    RenderDefault(None, author, [word], server, channel);
  }

  /**
   * Chained replacement scans substituted values again: an author whose
   * display name is the channel token is shown as the channel's name.
   */
  lemma RenderRescansSubstitutedValues(words: seq<string>, server: string, channel: string)
    ensures Render(Some(AuthorToken), ChannelToken, words, server, channel) == channel
  {
    ReplaceAtStart([], AuthorToken, ChannelToken);
    assert Replace(AuthorToken, AuthorToken, ChannelToken) == ChannelToken + [];
    ReplaceAbsentChannel(WordsToken, Join(words, WordSeparator));
    ReplaceAbsentChannel(ServerToken, server);
    ReplaceAtStart([], ChannelToken, channel);
    assert ChannelToken == ChannelToken + [];
  }

  /** Neither the words token nor the server token occurs in the channel token. */
  lemma ReplaceAbsentChannel(pat: string, rep: string)
    requires pat == WordsToken || pat == ServerToken
    ensures Replace(ChannelToken, pat, rep) == ChannelToken
  {
    forall i | 0 <= i <= |ChannelToken| ensures !OccursAt(ChannelToken, pat, i) {
      if i + |pat| <= |ChannelToken| {
        assert ChannelToken[i..i + |pat|][2] == ChannelToken[i + 2];
      }
    }
    ReplaceAbsent(ChannelToken, pat, rep);
  }
}
