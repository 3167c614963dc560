/** How a peer identifier travels from the receiver to the sender: the
    receiver embeds it in a link (or a QR code) whose path is `/send/<id>`,
    and the sender, mounted at that path, recovers the identifier it dials
    from the third `/`-separated segment of its own path. */
module Address {
  import opened Wrappers
  import opened Text

  /** The route the sender page is mounted on. */
  const SendRoute := "/send/"

  /** Where the copied share link points. */
  const ShareOrigin := "https://p2p-file.vercel.app"

  /** Where the QR code points. */
  const QrOrigin := "http://localhost:5173"

  /** The path part of both addresses: the send route followed by the id. */
  function SendPath(id: string): string {
    SendRoute + id
  }

  /** The link the receiver copies to the clipboard. It is the public origin
      followed by the send path of `id`, so the id starts right after the
      origin and the route. */
  function ShareLink(peerId: string): (link: string)
    ensures link == ShareOrigin + SendPath(peerId)
    ensures link[|ShareOrigin| + |SendRoute|..] == peerId
  {
    "https://p2p-file.vercel.app/send/" + peerId
  }

  /** The value the receiver's QR code encodes. It carries the same path as
      the share link, on the local development origin instead. */
  function QrValue(peerId: string): (value: string)
    ensures value == QrOrigin + SendPath(peerId)
    ensures value[|QrOrigin|..] == ShareLink(peerId)[|ShareOrigin|..]
  {
    "http://localhost:5173/send/" + peerId
  }

  /** The identifier the sender dials, from its page's path:
      `pathname.split("/")[2].trim()`. A path with fewer than two `/` has no
      third segment, and there the expression throws; that is `None` here.
      Otherwise the target holds no `/` and no white space at either end. */
  function DialTarget(pathname: string): (target: Option<string>)
    ensures target.Some? <==> Count(pathname, '/') >= 2
    ensures target.Some? ==> '/' !in target.value && IsTrimmed(target.value)
  {
    var segments := Split(pathname, '/');
    if |segments| < 3 then None
    else
      var t := Trim(segments[2]);
      assert forall c :: c in t ==> c in segments[2];
      Some(t)
  }

  /** On a send path whose tail holds no `/`, the sender dials that tail with
      its surrounding white space removed. */
  lemma DialTargetOfSendPath(tail: string)
    requires '/' !in tail
    ensures DialTarget(SendPath(tail)) == Some(Trim(tail))
  {
    assert SendPath(tail) == [] + ['/'] + ("send" + ['/'] + tail);
    SplitAtFirstSeparator([], '/', "send" + ['/'] + tail);
    SplitAtFirstSeparator("send", '/', tail);
    SplitWithoutSeparator(tail, '/');
  }

  /** Round trip between the two components: a sender opened from the
      receiver's address dials exactly the receiver's id, provided the id
      holds no `/` and no surrounding white space. */
  lemma ShareLinkRoundTrip(peerId: string)
    requires '/' !in peerId && IsTrimmed(peerId)
    ensures DialTarget(SendPath(peerId)) == Some(peerId)
  {
    DialTargetOfSendPath(peerId);
    TrimKeepsTrimmed(peerId);
  }

  /** An id that itself contains a `/` does not survive the trip: only its
      part before the first `/` is dialled. */
  lemma SlashInIdIsCut(head: string, rest: string)
    requires '/' !in head
    ensures DialTarget(SendPath(head + ['/'] + rest)) == Some(Trim(head))
  {
    assert SendPath(head + ['/'] + rest) == [] + ['/'] + ("send" + ['/'] + (head + ['/'] + rest));
    SplitAtFirstSeparator([], '/', "send" + ['/'] + (head + ['/'] + rest));
    SplitAtFirstSeparator("send", '/', head + ['/'] + rest);
    SplitAtFirstSeparator(head, '/', rest);
  }
}
