/** The values the scan pipeline passes around: fetched resources and match records. */
module Records {

  datatype Option<+T> = None | Some(value: T)

  /**
   * A resource of the page: the tab's own document or one of its external scripts.
   * `content` is None when fetching failed, because the fetch helper then resolves to nothing.
   */
  datatype Resource = Resource(url: string, content: Option<string>)

  /** One occurrence of a pattern in a resource: the pattern, the whole resource and the matched text. */
  datatype MatchRecord = MatchRecord(pattern: string, content: Resource, word: string)

  /** The URL of each resource, in order. */
  function Urls(contents: seq<Resource>): (urls: seq<string>)
    ensures |urls| == |contents|
  {
    if contents == [] then [] else Urls(contents[..|contents| - 1]) + [contents[|contents| - 1].url]
  }

  /** The fetched body of each resource, in order. */
  function Responses(contents: seq<Resource>): (responses: seq<Option<string>>)
    ensures |responses| == |contents|
  {
    if contents == [] then [] else Responses(contents[..|contents| - 1]) + [contents[|contents| - 1].content]
  }

  /**
   * The contents list built once every fetch has settled: the i-th response is paired with the
   * tab URL when i is 0 and with the (i-1)-th script URL otherwise. The fetches are started for
   * the tab URL followed by every script URL, so there is one response per URL.
   */
  function Assemble(tabUrl: string, scriptUrls: seq<string>, responses: seq<Option<string>>): (contents: seq<Resource>)
    requires |responses| == 1 + |scriptUrls|
    ensures |contents| == |responses|
  {
    seq(|responses|, i requires 0 <= i < |responses| =>
      Resource(if i == 0 then tabUrl else scriptUrls[i - 1], responses[i]))
  }

  lemma {:induction false} UrlsAt(contents: seq<Resource>, i: nat)
    requires i < |contents|
    ensures Urls(contents)[i] == contents[i].url
  {
    if i < |contents| - 1 {
      UrlsAt(contents[..|contents| - 1], i);
    }
  }

  lemma {:induction false} ResponsesAt(contents: seq<Resource>, i: nat)
    requires i < |contents|
    ensures Responses(contents)[i] == contents[i].content
  {
    if i < |contents| - 1 {
      ResponsesAt(contents[..|contents| - 1], i);
    }
  }

  /**
   * Unzipping the assembled contents gives back the URL list the fetches were started for
   * (tab URL first, then the scripts in discovery order) and the responses in the same order.
   */
  lemma AssembleUnzips(tabUrl: string, scriptUrls: seq<string>, responses: seq<Option<string>>)
    requires |responses| == 1 + |scriptUrls|
    ensures Urls(Assemble(tabUrl, scriptUrls, responses)) == [tabUrl] + scriptUrls
    ensures Responses(Assemble(tabUrl, scriptUrls, responses)) == responses
  {
    var contents := Assemble(tabUrl, scriptUrls, responses);
    forall i | 0 <= i < |contents|
      ensures Urls(contents)[i] == ([tabUrl] + scriptUrls)[i]
      ensures Responses(contents)[i] == responses[i]
    {
      UrlsAt(contents, i);
      ResponsesAt(contents, i);
    }
  }

  /** Conversely, any non-empty contents list is the assembly of its own URLs and responses. */
  lemma AssembleOfUnzipped(contents: seq<Resource>)
    requires contents != []
    ensures Assemble(Urls(contents)[0], Urls(contents)[1..], Responses(contents)) == contents
  {
    var urls := Urls(contents);
    var assembled := Assemble(urls[0], urls[1..], Responses(contents));
    forall i | 0 <= i < |contents| ensures assembled[i] == contents[i] {
      UrlsAt(contents, i);
      ResponsesAt(contents, i);
    }
  }
}
