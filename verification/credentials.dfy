/** The credential split at the start of `hackerOneFetcher.Fetch`: the
    combined `username:key` string is cut at its first ':' and the halves
    are rejoined for the Basic-auth header. The Base64 encoder (section 4
    of RFC 4648) is left abstract and passed in as `encode`. */
module Credentials {
  import opened Failures

  /** `strings.Index` for a one-rune separator: the position of the first
      occurrence of `c`, or -1 when there is none. */
  function IndexOf(s: string, c: char): (i: int)
    ensures -1 <= i < |s|
    ensures i == -1 <==> c !in s
    ensures 0 <= i ==> s[i] == c && c !in s[..i]
  {
    if |s| == 0 then -1
    else if s[0] == c then 0
    else
      var j := IndexOf(s[1..], c);
      if j == -1 then -1
      else
        assert s[..j + 1] == [s[0]] + s[1..][..j];
        j + 1
  }

  /** `strings.SplitN(s, ":", 2)`: one part when `s` has no ':', otherwise
      the text before the first ':' and everything after it. */
  function SplitN2(s: string): (parts: seq<string>)
    ensures |parts| == 1 || |parts| == 2
    ensures |parts| == 1 <==> ':' !in s
    ensures |parts| == 1 ==> parts[0] == s
    ensures |parts| == 2 ==> ':' !in parts[0] && parts[0] + ":" + parts[1] == s
  {
    var m := IndexOf(s, ':');
    if m < 0 then [s]
    else
      assert s == s[..m] + ":" + s[m + 1..];
      [s[..m], s[m + 1..]]
  }

  /** Splitting undoes joining whenever the username has no ':'. */
  lemma SplitJoin(username: string, key: string)
    requires ':' !in username
    ensures SplitN2(username + ":" + key) == [username, key]
  {
    var s := username + ":" + key;
    var m := IndexOf(s, ':');
    assert s[|username|] == ':';
    assert s[..|username|] == username;
    assert m == |username|;
    assert s[..m] == username;
    assert s[m + 1..] == key;
  }

  /** The Basic-auth token: rejects credentials without a separator and
      otherwise encodes `username + ":" + key`. */
  function BasicAuth(apiKey: string, encode: string -> string): (r: Result<string>)
    ensures r.Failure? <==> ':' !in apiKey
    ensures r.Failure? ==> r.error == InvalidCredentialFormat
    ensures r.Success? ==> r.value == encode(apiKey)
  {
    var parts := SplitN2(apiKey);
    if |parts| != 2 then Failure(InvalidCredentialFormat)
    else
      var username, key := parts[0], parts[1];
      Success(encode(username + ":" + key))
  }
}
