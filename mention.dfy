/**
 The fediverse handle ("mention") of a follower, built from the `username`
 and `host` fields the Misskey API returns. A local user has no host (the
 API gives `null`); Python's truthiness test treats an empty host the same.
 The handle is the primary key of the streak table.
 */
module Mention {
  import opened Wrappers

  /** The host part that takes effect: absent when missing or empty. */
  function EffectiveHost(host: Option<string>): (h: Option<string>)
    ensures h.Some? <==> host.Some? && host.value != ""
    ensures h.Some? ==> h == host
  {
    if host.Some? && host.value != "" then host else None
  }

  function Mention(username: string, host: Option<string>): (m: string)
    ensures EffectiveHost(host).None? ==> m == "@" + username
    ensures EffectiveHost(host).Some? ==> m == "@" + username + "@" + host.value
  {
    match EffectiveHost(host)
    case None => "@" + username
    case Some(h) => "@" + username + "@" + h
  }

  /** Splits `s` at its first `@`: the part before, and the part after if there is one. */
  function SplitAtSign(s: string): (p: (string, Option<string>))
    ensures '@' !in p.0
    ensures p.1.None? ==> p.0 == s
    ensures p.1.Some? ==> s == p.0 + "@" + p.1.value
  {
    if s == [] then ([], None)
    else if s[0] == '@' then ([], Some(s[1..]))
    else
      var rest := SplitAtSign(s[1..]);
      ([s[0]] + rest.0, rest.1)
  }

  /** Reads a handle back into its username and host. */
  function ParseMention(m: string): Option<(string, Option<string>)>
  {
    if |m| >= 1 && m[0] == '@' then
      var p := SplitAtSign(m[1..]);
      if p.1 == Some("") then None else Some(p)
    else None
  }

  lemma {:induction false} SplitAtSignOfJoin(u: string, rest: Option<string>)
    requires '@' !in u
    ensures SplitAtSign(if rest.Some? then u + "@" + rest.value else u) == (u, rest)
  {
    var s := if rest.Some? then u + "@" + rest.value else u;
    if u != [] {
      assert s == [u[0]] + (if rest.Some? then u[1..] + "@" + rest.value else u[1..]);
      assert s[0] == u[0];
      assert s[1..] == if rest.Some? then u[1..] + "@" + rest.value else u[1..];
      assert u[0] in u;
      SplitAtSignOfJoin(u[1..], rest);
      assert [u[0]] + u[1..] == u;
    } else if rest.Some? {
      assert s[1..] == rest.value;
    }
  }

  /**
   A username without `@` can be read back from its handle, together with the
   effective host: the key identifies the follower.
   */
  lemma MentionRoundTrip(username: string, host: Option<string>)
    requires '@' !in username
    ensures ParseMention(Mention(username, host)) == Some((username, EffectiveHost(host)))
  {
    var m := Mention(username, host);
    var h := EffectiveHost(host);
    assert m[1..] == if h.Some? then username + "@" + h.value else username;
    SplitAtSignOfJoin(username, h);
  }

  /** Two followers whose handles collide have the same username and effective host. */
  lemma MentionInjective(u1: string, h1: Option<string>, u2: string, h2: Option<string>)
    requires '@' !in u1 && '@' !in u2
    requires Mention(u1, h1) == Mention(u2, h2)
    ensures u1 == u2 && EffectiveHost(h1) == EffectiveHost(h2)
  {
    MentionRoundTrip(u1, h1);
    MentionRoundTrip(u2, h2);
  }
}
