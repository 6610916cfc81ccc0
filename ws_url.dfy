/**
 * Normalisation of the LiveKit server address into a WebSocket URL, as the
 * application view does when it starts: an address that already names a
 * WebSocket scheme is kept, an HTTP scheme is swapped for the matching
 * WebSocket scheme, and a bare host gets `ws://` in front.
 */
module WsUrl {

  predicate StartsWith(s: string, prefix: string) {
    |prefix| <= |s| && s[..|prefix|] == prefix
  }

  predicate HasWsScheme(s: string) {
    StartsWith(s, "ws://") || StartsWith(s, "wss://")
  }

  function WebSocketUrl(host: string): (url: string)
    ensures HasWsScheme(url)
  {
    if StartsWith(host, "ws://") || StartsWith(host, "wss://") then host
    else if StartsWith(host, "http://") then "ws://" + host[|"http://"|..]
    else if StartsWith(host, "https://") then "wss://" + host[|"https://"|..]
    else "ws://" + host
  }

  /** The address with its scheme (any of the four recognised ones) removed. */
  function Authority(s: string): string {
    if StartsWith(s, "wss://") then s[|"wss://"|..]
    else if StartsWith(s, "ws://") then s[|"ws://"|..]
    else if StartsWith(s, "https://") then s[|"https://"|..]
    else if StartsWith(s, "http://") then s[|"http://"|..]
    else s
  }

  /** What follows the scheme is never altered, and a secure scheme stays secure. */
  lemma WebSocketUrlKeepsAuthority(host: string)
    ensures Authority(WebSocketUrl(host)) == Authority(host)
    ensures StartsWith(WebSocketUrl(host), "wss://") <==>
              (StartsWith(host, "wss://") || StartsWith(host, "https://"))
  {
    var url := WebSocketUrl(host);
    if StartsWith(host, "ws://") || StartsWith(host, "wss://") {
      assert StartsWith(host, "ws://") ==> host[2] == ':';
      assert StartsWith(host, "wss://") ==> host[2] == 's';
    } else if StartsWith(host, "http://") {
      assert host[..4] == "http" && host[4] == ':';
      WithScheme("ws://", host[|"http://"|..]);
    } else if StartsWith(host, "https://") {
      WithScheme("wss://", host[|"https://"|..]);
    } else {
      WithScheme("ws://", host);
    }
  }

  /** Which of the recognised schemes a string built as `scheme + rest` starts with. */
  lemma WithScheme(scheme: string, rest: string)
    requires scheme in {"ws://", "wss://", "http://", "https://"}
    ensures StartsWith(scheme + rest, scheme)
    ensures (scheme + rest)[|scheme|..] == rest
    ensures StartsWith(scheme + rest, "ws://") <==> scheme == "ws://"
    ensures StartsWith(scheme + rest, "wss://") <==> scheme == "wss://"
    ensures StartsWith(scheme + rest, "http://") <==> scheme == "http://"
    ensures StartsWith(scheme + rest, "https://") <==> scheme == "https://"
  {
    var u := scheme + rest;
    assert u[..|scheme|] == scheme;
    assert u[0] == scheme[0] && u[2] == scheme[2] && u[4] == scheme[4];
  }

  /** Normalising twice gives the same URL as normalising once. */
  lemma WebSocketUrlIdempotent(host: string)
    ensures WebSocketUrl(WebSocketUrl(host)) == WebSocketUrl(host)
  {
  }

  /** The four cases of the conversion, each stated as its outcome. */
  lemma WebSocketUrlCases(host: string, rest: string)
    ensures WebSocketUrl("ws://" + rest) == "ws://" + rest
    ensures WebSocketUrl("wss://" + rest) == "wss://" + rest
    ensures WebSocketUrl("http://" + rest) == "ws://" + rest
    ensures WebSocketUrl("https://" + rest) == "wss://" + rest
    ensures !StartsWith(host, "ws://") && !StartsWith(host, "wss://") &&
            !StartsWith(host, "http://") && !StartsWith(host, "https://") ==>
              WebSocketUrl(host) == "ws://" + host
  {
    WithScheme("ws://", rest);
    WithScheme("wss://", rest);
    WithScheme("http://", rest);
    WithScheme("https://", rest);
  }
}
