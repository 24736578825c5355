/** The "conversational flow" strip of the chat page: the last four
    messages, each as a role label and a clipped excerpt of its content. */
module Timeline {
  import opened Text
  import opened Messages

  const Window: nat := 4
  const ExcerptLimit: nat := 42
  const Ellipsis: char := '…'

  /** The label shown for a role: the two labels differ from their first
      letter on. */
  function Descriptor(role: Role): (r: string)
    ensures |r| >= 5 && (r[0] == 'H' <==> role == Usuario)
  {
    if role == Usuario then "Humana" else "Nexus"
  }

  /** The content, cut to 42 characters plus an ellipsis only when it is
      longer than 42. */
  function Excerpt(content: string): (r: string)
    ensures |content| <= ExcerptLimit ==> r == content
    ensures |content| > ExcerptLimit ==>
      |r| == ExcerptLimit + 1 && r[..ExcerptLimit] == content[..ExcerptLimit] && r[ExcerptLimit] == Ellipsis
    ensures |r| <= ExcerptLimit + 1
  {
    if |content| > ExcerptLimit then content[..ExcerptLimit] + [Ellipsis] else content
  }

  /** One timeline line: the role's label, a colon and a space, the
      excerpt. */
  function Entry(m: Message): (r: string)
    ensures 7 <= |r| <= 8 + ExcerptLimit + 1
  {
    Descriptor(m.role) + ": " + Excerpt(m.content)
  }

  /** A line reads `"Humana: "` plus the excerpt for the person and
      `"Nexus: "` plus the excerpt for the companion; its first letter tells
      the two roles apart. */
  lemma EntryLabel(m: Message)
    ensures |Entry(m)| >= 7 && (Entry(m)[0] == 'H' <==> m.role == Usuario)
    ensures m.role == Usuario ==> |Entry(m)| >= 8 && Entry(m)[..8] == "Humana: " && Entry(m)[8..] == Excerpt(m.content)
    ensures m.role == Nexus ==> Entry(m)[..7] == "Nexus: " && Entry(m)[7..] == Excerpt(m.content)
  {
  }

  /** `map`: `f` applied to every element, in order. */
  function Map<A, B>(f: A -> B, s: seq<A>): (r: seq<B>)
    ensures |r| == |s|
    ensures forall i :: 0 <= i < |s| ==> r[i] == f(s[i])
  {
    seq(|s|, i requires 0 <= i < |s| => f(s[i]))
  }

  /** `messages.slice(-4).map(...)`: the entries of the last four
      messages. */
  function Recent(messages: seq<Message>): (r: seq<string>)
    ensures |r| == Min(Window, |messages|)
  {
    Map(Entry, messages[|messages| - Min(Window, |messages|)..])
  }

  /** The timeline shows the last `min(4, n)` messages, oldest first: line
      `i` is the entry of message `n - len + i`. */
  lemma RecentEntries(messages: seq<Message>)
    ensures forall i :: 0 <= i < |Recent(messages)| ==>
      Recent(messages)[i] == Entry(messages[|messages| - |Recent(messages)| + i])
  {
  }

  /** The last four of a list of lines. */
  function LastWindow(lines: seq<string>): (r: seq<string>)
    ensures |r| == Min(Window, |lines|) && r == lines[|lines| - |r|..]
  {
    lines[|lines| - Min(Window, |lines|)..]
  }

  /** Mapping commutes with appending one element. */
  lemma MapAppend<A, B>(f: A -> B, s: seq<A>, x: A)
    ensures Map(f, s + [x]) == Map(f, s) + [f(x)]
  {
  }

  /** Mapping commutes with dropping a prefix. */
  lemma MapDrop<A, B>(f: A -> B, s: seq<A>, k: nat)
    requires k <= |s|
    ensures Map(f, s[k..]) == Map(f, s)[k..]
  {
  }

  lemma DropAppend<T>(s: seq<T>, x: T, k: nat)
    requires k <= |s|
    ensures s[k..] + [x] == (s + [x])[k..]
  {
  }

  lemma DropDrop<T>(s: seq<T>, i: nat, j: nat)
    requires i + j <= |s|
    ensures s[i..][j..] == s[i + j..]
  {
  }

  /** The last `k` of a mapped list after appending `x` are the last `k`
      of the last `k` mapped, followed by `f(x)`. */
  lemma SlideMap<A, B>(f: A -> B, s: seq<A>, x: A, k: nat)
    ensures var lines := Map(f, s[|s| - Min(k, |s|)..]) + [f(x)];
      Map(f, (s + [x])[|s| + 1 - Min(k, |s| + 1)..]) == lines[|lines| - Min(k, |lines|)..]
  {
    var n := |s|;
    var all := s + [x];
    var w, w' := Min(k, n), Min(k, n + 1);
    // The old window plus `x` is the suffix of `all` from `n - w` on ...
    var grown := all[n - w..];
    DropAppend(s, x, n - w);
    MapAppend(f, s[n - w..], x);
    // ... and the new window is its last `w'` elements.
    MapDrop(f, grown, w + 1 - w');
    DropDrop(all, n - w, w + 1 - w');
  }

  /** Appending a message slides the timeline: its entry joins at the end
      and, once there are four, the oldest entry leaves. */
  lemma RecentAfterAppend(messages: seq<Message>, m: Message)
    ensures Recent(messages + [m]) == LastWindow(Recent(messages) + [Entry(m)])
  {
    SlideMap(Entry, messages, m, Window);
  }
}
