/** The indexer and the index it fills: their methods change their fields just as the steps of the parse order say. */
module Indexing {
  import opened Options
  import opened ParseOrder

  class FileInfoIndex {
    var codeInfoCache: map<Uri, Source>
    var fallbackDeclarations: map<Uri, Source>

    constructor ()
      ensures codeInfoCache == map[] && fallbackDeclarations == map[]
    {
      codeInfoCache, fallbackDeclarations := map[], map[];
    }

    ghost function View(): Index
      reads this
    {
      Index(codeInfoCache, fallbackDeclarations)
    }

    method ParseAndStoreCodeInfo(uri: Uri, source: Source)
      modifies this
      ensures View() == StoreCodeInfo(old(View()), uri, source) && uri in codeInfoCache
      ensures Held(View(), uri) == Some(source) && (NeverBoth(old(View())) ==> NeverBoth(View()))
      ensures forall other :: other != uri ==> Held(View(), other) == Held(old(View()), other)
    {
      codeInfoCache := codeInfoCache[uri := source];
      fallbackDeclarations := fallbackDeclarations - {uri};
    }

    method StoreFallbackDeclarations(uri: Uri, source: Source)
      modifies this
      ensures View() == StoreFallback(old(View()), uri, source) && uri !in codeInfoCache
      ensures Held(View(), uri) == Some(source) && (NeverBoth(old(View())) ==> NeverBoth(View()))
      ensures forall other :: other != uri ==> Held(View(), other) == Held(old(View()), other)
    {
      codeInfoCache := codeInfoCache - {uri};
      fallbackDeclarations := fallbackDeclarations[uri := source];
    }

    /** Drops the files of a removed workspace folder. */
    method DropFromIndex(uris: set<Uri>)
      modifies this
      ensures View() == RemoveAll(old(View()), uris)
    {
      codeInfoCache := codeInfoCache - uris;
      fallbackDeclarations := fallbackDeclarations - uris;
    }
  }

  class Indexer {
    const fileInfoIndex: FileInfoIndex
    var lastParseRequestId: nat
    var newestStoredRequestId: map<Uri, nat>
    ghost var parses: seq<Parse> // every parse there ever was
    ghost var clock: nat

    ghost function View(): State
      reads this, fileInfoIndex
    {
      State(fileInfoIndex.View(), newestStoredRequestId, parses, clock)
    }

    ghost predicate Valid()
      reads this
    {
      lastParseRequestId == |parses|
    }

    constructor ()
      ensures Valid() && View() == INITIAL
    {
      fileInfoIndex := new FileInfoIndex();
      lastParseRequestId, newestStoredRequestId := 0, map[];
      parses, clock := [], 0;
    }

    method BeginIndexDocument(uri: Uri) returns (requestId: nat)
      requires Valid()
      modifies this
      ensures Valid() && requestId == |parses| && View() == Apply(old(View()), IndexDocument(uri))
    {
      lastParseRequestId := lastParseRequestId + 1;
      requestId := lastParseRequestId;
      parses, clock := parses + [Parse(uri, true, Some(clock), None)], clock + 1;
    }

    method BeginIndexFile(uri: Uri) returns (requestId: nat)
      requires Valid()
      modifies this
      ensures Valid() && requestId == |parses| && View() == Apply(old(View()), IndexFile(uri))
    {
      lastParseRequestId := lastParseRequestId + 1;
      requestId := lastParseRequestId;
      parses, clock := parses + [Parse(uri, false, None, None)], clock + 1;
    }

    /** Reading the file is over; the program keeps nothing of it but the text. */
    ghost method FileWasRead(requestId: nat)
      requires Valid() && Enabled(View(), ReadFile(requestId))
      modifies this`parses, this`clock
      ensures Valid() && View() == Apply(old(View()), ReadFile(requestId))
    {
      parses, clock := parses[requestId - 1 := parses[requestId - 1].(textReadAt := Some(clock))], clock + 1;
    }

    /** Whether no newer parse of the file was stored, which is then recorded. */
    method ClaimNewestParse(uri: Uri, requestId: nat) returns (claimed: bool)
      modifies this`newestStoredRequestId
      ensures claimed <==> NewestStored(old(newestStoredRequestId), uri) <= requestId
      ensures newestStoredRequestId == if claimed then old(newestStoredRequestId)[uri := requestId]
              else old(newestStoredRequestId)
    {
      if requestId < (if uri in newestStoredRequestId then newestStoredRequestId[uri] else 0) {
        return false;
      }
      newestStoredRequestId := newestStoredRequestId[uri := requestId];
      return true;
    }

    ghost method Answered(requestId: nat, answer: Answer)
      requires Valid() && 0 < requestId <= |parses|
      modifies this`parses, this`clock
      ensures Valid() && clock == old(clock) + 1
      ensures parses == old(parses)[requestId - 1 := old(parses)[requestId - 1].(answer := Some(answer))]
    {
      parses, clock := parses[requestId - 1 := parses[requestId - 1].(answer := Some(answer))], clock + 1;
    }

    /** What follows the answer of MATLAB to the parse of a document. */
    method EndIndexDocument(uri: Uri, requestId: nat, answer: Answer)
      requires Valid() && Enabled(View(), Finish(requestId, answer))
      requires ParseOf(View(), requestId).uri == uri && ParseOf(View(), requestId).ofDocument
      modifies this, fileInfoIndex
      ensures Valid() && View() == Apply(old(View()), Finish(requestId, answer))
    {
      Answered(requestId, answer);
      if answer.NoData? {
        return;
      }
      if answer.SyntaxError? {
        if uri !in fileInfoIndex.codeInfoCache {
          var claimed := ClaimNewestParse(uri, requestId);
          if claimed {
            fileInfoIndex.StoreFallbackDeclarations(uri, FromParse(requestId));
          }
        }
        return;
      }
      var claimed := ClaimNewestParse(uri, requestId);
      if claimed {
        fileInfoIndex.ParseAndStoreCodeInfo(uri, FromParse(requestId));
      }
    }

    /** What follows the answer of MATLAB to the parse of a file. */
    method EndIndexFile(uri: Uri, requestId: nat, answer: Answer)
      requires Valid() && Enabled(View(), Finish(requestId, answer))
      requires ParseOf(View(), requestId).uri == uri && !ParseOf(View(), requestId).ofDocument
      modifies this, fileInfoIndex
      ensures Valid() && View() == Apply(old(View()), Finish(requestId, answer))
    {
      Answered(requestId, answer);
      if !answer.Good? {
        return;
      }
      var claimed := ClaimNewestParse(uri, requestId);
      if claimed {
        fileInfoIndex.ParseAndStoreCodeInfo(uri, FromParse(requestId));
      }
    }

    /** What a crawl does with the file MATLAB reports on, if it may store it. */
    method OnFileCrawled(uri: Uri, answer: Answer, readable: bool)
      requires Valid()
      modifies this`clock, fileInfoIndex
      ensures Valid() && View() == Apply(old(View()), Crawled(uri, answer, readable))
      ensures Held(View().index, uri) == if IsStoringCrawl(Crawled(uri, answer, readable), uri) then Some(FromCrawl)
                                         else Held(old(View()).index, uri)
    {
      clock := clock + 1;
      if answer.Good? {
        fileInfoIndex.ParseAndStoreCodeInfo(uri, FromCrawl);
      } else if answer.SyntaxError? && readable {
        fileInfoIndex.StoreFallbackDeclarations(uri, FromCrawl);
      }
    }
  }
}
