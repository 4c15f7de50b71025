# nextpage story service — a Dafny model

nextpage is a collaborative story-writing backend. Users write stories that continue
one another. Each story may name a parent, so the stories form a forest:

- A story without a parent is a **root**.
- A root and everything that descends from it is a **scenario**.
- The stories from a root down to one node are that node's **path**.

Each story carries an image. The image is generated by OpenAI's DALL-E from the story's
content. It is then downloaded, re-uploaded to S3 and resized.

This project models three services:

- **StoryService**: the read views it assembles from the story repository (root listing,
  story details, scenario graph, path to a node) and the write path that creates a story.
- **ImageService**: the pure helpers. These are extension extraction, content-type
  detection, S3 key and bucket naming, and the control flow of the two upload flows.
- **OpenAiService**: the request body, the reply's status classification, and the
  extraction of the image URL.

Modules:

- `Wrappers`: `Option` (Java's null / Optional) and `Result` (a value or the exception
  that would have been thrown).
- `StoryForest`: the `Story` entity and the store as a value.
  - `Forest` is a map from id to story, plus the creation order of the ids.
  - `Valid` is the store invariant. It holds that every id is listed once, every node is
    stored under its own id, and a node's parent was created before the node.
  - The repository queries the service calls (`findById`, `findRootStories`,
    `findChildByParentId`, `findAllChildrenByRootId`, `findRecursivelyByLeafId`,
    `findParentByChildId`) are functions over the forest.
  - Lemmas relate the queries to an independent definition of ancestry, `Up` (the k-th
    ancestor), and to `Acyclic`.
- `Repository`: `StoryRepository`, a class whose `forest` field only `Save` changes.
- `StoryService`: the service operations.
  - Reading operations are functions that read the repository.
  - `generateStory` is a method because it changes the store through `save`.
    `getStoriesByRootId` and `getStoriesByleafId` are methods because the source fills
    their lists step by step; `getStoriesByleafId` also reverses its list in place.
  - The token service, the user repository and the image step are function parameters
    that may fail.
- `ImageService`: the string helpers Java provides (`lastIndexOf`, `indexOf`,
  `endsWith`), the extension and content-type rules, the key naming, the temporary-file
  name as OpenJDK 21's `File.createTempFile` builds, normalises and checks it, and the
  upload flows. The outcomes of the HTTP download, the file I/O, the image codecs and the
  S3 client are parameters.
- `OpenAiService`: the prompt and the request map; `handleResponse`'s classification of
  4xx, 5xx and other replies; and `extractImageUrl` over a decoded JSON value.

The image flows follow the code as written: the download takes its extension from
`getExtensionFromUrl`, and `uploadFile` sends a request without the metadata it prepares.
`handleResponse` is modelled as written as well, empty reply bodies included. The three
places where the code evidently means something else are listed under Findings. For each,
a corrected definition (`GetExtensionFromPath`, `PutRequest`, `HandleResponseIntended`) is
proved beside the as-written one.

The repository is assumed to return query results in creation order. This matters only
for the order of the listed views. Ids are not assumed to grow with time: the recursion
along parent links terminates on a node's position in creation order.

## Model

| member | source | states |
|---|---|---|
| StoryForest.FindById | src/main/java/com/nextpage/backend/service/StoryService.java:46-47 | the lookup succeeds exactly for a stored id and returns the node stored under it |
| StoryForest.FindRootStories | src/main/java/com/nextpage/backend/service/StoryService.java:37 | a story is returned exactly when it is stored and has no parent, and no story is returned twice |
| StoryForest.FindChildByParentId | src/main/java/com/nextpage/backend/service/StoryService.java:53 | a story is returned exactly when it is stored and its parent is the given id, and no story is returned twice |
| StoryForest.FindAllChildrenByRootId | src/main/java/com/nextpage/backend/service/StoryService.java:85 | a story is returned exactly when it is stored and descends from the root (the root included), and no story is returned twice |
| StoryForest.FindRecursivelyByLeafId | src/main/java/com/nextpage/backend/service/StoryService.java:99 | the chain is non-empty exactly when the node is stored; it starts at the node, ends at a root, holds stored nodes only, and each element's parent is the next element |
| StoryForest.FindParentByChildId | src/main/java/com/nextpage/backend/service/StoryService.java:110 | there is a result exactly when the child is stored and has a parent; the result is that stored parent |
| StoryForest.ParentCreatedEarlier | src/main/java/com/nextpage/backend/service/StoryService.java:69-71 | in a valid store a node's parent is stored and comes earlier in creation order, because save only links to parents already loaded |
| StoryForest.ValidIsClosed | src/main/java/com/nextpage/backend/service/StoryService.java:80-82 | in a valid store every parent reference names a stored story |
| StoryForest.AncestorCreatedEarlier | src/main/java/com/nextpage/backend/service/StoryService.java:99 | every proper ancestor of a node was created before it, which is why the walk to the root ends |
| StoryForest.ValidIsAcyclic | src/main/java/com/nextpage/backend/service/StoryService.java:99 | no story in a valid store is its own ancestor at any distance |
| StoryForest.Insert | src/main/java/com/nextpage/backend/service/StoryService.java:71 | save stores the story under its id, adds exactly that key, leaves every other stored story as it was, and appends the id to the creation order |
| StoryForest.InsertPreservesValid | src/main/java/com/nextpage/backend/service/StoryService.java:71 | saving a fresh story whose parent is absent or stored keeps the store invariant |
| StoryForest.InsertKeepsAncestors | src/main/java/com/nextpage/backend/service/StoryService.java:71 | saving a fresh story leaves every existing story's ancestors unchanged |
| StoryForest.InsertPreservesAcyclic | src/main/java/com/nextpage/backend/service/StoryService.java:69-71 | saving a fresh story with an absent or stored parent keeps a store that is referentially intact and acyclic in that state, whether or not it was built in creation order |
| StoryForest.Select | src/main/java/com/nextpage/backend/service/StoryService.java:37 | the filtered list holds exactly the listed nodes the filter keeps, is no longer than the id list, and lists no id twice when the ids are distinct and each node is stored under its own id |
| StoryForest.StoredInOrder | src/main/java/com/nextpage/backend/service/StoryService.java:37 | a node reached through the creation order is exactly a stored node |
| StoryForest.ChainIsAncestry | src/main/java/com/nextpage/backend/service/StoryService.java:99 | the i-th element of a node's chain is its i-th ancestor, and the chain stops where the ancestors stop |
| StoryForest.RootsEmptyIffStoreEmpty | src/main/java/com/nextpage/backend/service/StoryService.java:37-41 | there is no root exactly when the store is empty, so getRootStories fails only on an empty store |
| StoryForest.DescendsFromStoredRoot | src/main/java/com/nextpage/backend/service/StoryService.java:85 | only a stored root has descendants |
| StoryForest.ConsHasId | src/main/java/com/nextpage/backend/service/StoryService.java:99 | a chain with a head holds an id exactly when the head has it or the rest of the chain holds it |
| StoryForest.ChainStep | src/main/java/com/nextpage/backend/service/StoryService.java:99 | the chain of a node with a parent is the node followed by the parent's chain, and the parent was created earlier |
| StoryForest.DescendsFromOnPath | src/main/java/com/nextpage/backend/service/StoryService.java:85-99 | every member of a root's scenario has that root on its chain |
| StoryForest.OnPathDescendsFrom | src/main/java/com/nextpage/backend/service/StoryService.java:85-99 | every node whose chain passes through a root belongs to that root's scenario |
| StoryForest.DescendsFromIffOnPath | src/main/java/com/nextpage/backend/service/StoryService.java:85-99 | a node descends from a root exactly when that root lies on the node's chain to its own root (both directions, DescendsFromOnPath and OnPathDescendsFrom) |
| StoryForest.ScenarioShape | src/main/java/com/nextpage/backend/service/StoryService.java:85-94 | a scenario is empty exactly when its root is not stored; it contains the root, the parent of each other member, and every child of each member |
| StoryForest.ScenarioMatchesPaths | src/main/java/com/nextpage/backend/service/StoryService.java:84-107 | a story is in a root's scenario exactly when it is stored and the root lies on the story's path |
| StoryForest.InsertKeepsPaths | src/main/java/com/nextpage/backend/service/StoryService.java:71 | saving a fresh story leaves the path of every existing story unchanged |
| Repository.StoryRepository.Save | src/main/java/com/nextpage/backend/service/StoryService.java:71 | save appends the story to the store, which stays valid and acyclic |
| StoryService.RootListing | src/main/java/com/nextpage/backend/service/StoryService.java:37-40 | every stored root appears in the root listing |
| StoryService.GetRootStories | src/main/java/com/nextpage/backend/service/StoryService.java:36-43 | one view per root in the repository's order; StoryNotFound exactly when there is no root, that is, exactly when the store is empty; the views are exactly the stored roots, each listed once |
| StoryService.IdListing | src/main/java/com/nextpage/backend/service/StoryService.java:53 | the id list of a story list holds exactly the ids of its members |
| StoryService.GetChildIds | src/main/java/com/nextpage/backend/service/StoryService.java:52-54 | one id per child; an id is listed exactly when it names a stored child of the story, and no id is listed twice |
| StoryService.GetChildContents | src/main/java/com/nextpage/backend/service/StoryService.java:56-58 | one content per child the repository lists, position i holding the content of the i-th listed child (which, by FindChildByParentId, is a stored child of the story) |
| StoryService.ChildListsCoIndexed | src/main/java/com/nextpage/backend/service/StoryService.java:52-58 | the two child lists have the same length and position i of both describes the same stored child |
| StoryService.GetStoryDetails | src/main/java/com/nextpage/backend/service/StoryService.java:45-50 | StoryNotFound exactly when the id is not stored; otherwise the story's fields, its parent's id (stored, and None exactly for a root), and co-indexed child ids and contents |
| StoryService.GetParentId | src/main/java/com/nextpage/backend/service/StoryService.java:109-112 | the stored parent's id of a stored story, None for a root or an unknown story |
| StoryService.GetParentById | src/main/java/com/nextpage/backend/service/StoryService.java:80-82 | a story exactly when an id is given and it is stored, and then the story stored under it |
| StoryService.GetUserNickname | src/main/java/com/nextpage/backend/service/StoryService.java:74-78 | the nickname of the token's user; InvalidToken when the token names no user, UserNotFound when the user has no nickname |
| StoryService.ToEntity | src/main/java/com/nextpage/backend/service/StoryService.java:69-70 | the new story has the given id, nickname and image URL and the request's content; it has a parent exactly when a parent story was resolved, and then that story's id |
| StoryService.GenerateStory | src/main/java/com/nextpage/backend/service/StoryService.java:60-72 | a failed identity or image step leaves the store unchanged and reports that error; otherwise the store gains exactly the new story with the fresh id, the nickname, the content and the uploaded image's URL; its parent is the requested one when that id resolves and none otherwise; the store stays valid and acyclic |
| StoryService.ScenarioViewsClosed | src/main/java/com/nextpage/backend/service/StoryService.java:84-95 | views listing a scenario one for one contain the root, and every other view's parent is itself a view |
| StoryService.GetStoriesByRootId | src/main/java/com/nextpage/backend/service/StoryService.java:84-96 | one view per scenario node in order, with that node's id, its parent and its image URL; StoryNotFound exactly when the root is not stored; the views contain the root, are closed under parent, and no two views share an id |
| StoryService.Reversed | src/main/java/com/nextpage/backend/service/StoryService.java:104 | the reversal has the same length and position i holds the element at position length-1-i |
| StoryService.ReverseInPlace | src/main/java/com/nextpage/backend/service/StoryService.java:104 | swapping the two ends moving inwards yields the reversed list |
| StoryService.PathIsRootFirst | src/main/java/com/nextpage/backend/service/StoryService.java:99-104 | the reversed chain is empty exactly for an unknown node; otherwise it starts at a root, ends at the node, holds stored nodes, and each element is the parent of the next |
| StoryService.PathViewsLinked | src/main/java/com/nextpage/backend/service/StoryService.java:99-106 | views of the reversed chain end at the node, start at a root, and each is the parent of the next |
| StoryService.GetStoriesByleafId | src/main/java/com/nextpage/backend/service/StoryService.java:98-107 | the views are the reversed chain's views; StoryNotFound exactly when the node is not stored; they start at a root, end at the node, and each is the parent of the next |
| ImageService.LastIndexOf | src/main/java/com/nextpage/backend/service/ImageService.java:119 | -1 exactly when the character is absent, else a position holding it with none after it |
| ImageService.IndexOf | src/main/java/com/nextpage/backend/service/ImageService.java:126 | -1 exactly when the character is absent, else a position holding it with none before it |
| ImageService.GetExtension | src/main/java/com/nextpage/backend/service/ImageService.java:118-120 | an ending of the file name that starts with its only '.' |
| ImageService.GetExtensionFromUrl | src/main/java/com/nextpage/backend/service/ImageService.java:122-130 | as written: ".png" when no '.' follows the first character; otherwise the URL's suffix from its last '.', cut before that suffix's first '?' |
| ImageService.BeforeQuery | src/main/java/com/nextpage/backend/service/ImageService.java:122-130 | the URL with its query cut off holds no '?' |
| ImageService.BeforeQueryIsPrefix | src/main/java/com/nextpage/backend/service/ImageService.java:122-130 | that text is a prefix of the URL and is all of it or stops at its first '?' |
| ImageService.UrlPath | src/main/java/com/nextpage/backend/service/ImageService.java:122-130 | an ending of the URL that is all of it when it has no scheme and host; otherwise empty or starting with '/' |
| ImageService.UrlPathSkipsHost | src/main/java/com/nextpage/backend/service/ImageService.java:122-130 | with a scheme and a host, the path begins no earlier than the host and no '/' lies between the host's start and the path |
| ImageService.LastPathSegment | src/main/java/com/nextpage/backend/service/ImageService.java:122-130 | the last segment of the URL's path holds neither '/' nor '?' |
| ImageService.AfterLastSlash | src/main/java/com/nextpage/backend/service/ImageService.java:122-130 | the segment is an ending of the path without '/', either all of the path or preceded in it by a '/', and free of '?' when the path is |
| ImageService.GetExtensionFromPath | src/main/java/com/nextpage/backend/service/ImageService.java:122-130 | corrected rule: the last path segment's suffix from its last '.' when that '.' is past the segment's first character, ".png" otherwise; never a '/' or a '?', and scheme, host and query do not contribute |
| ImageService.SegmentExtension | src/main/java/com/nextpage/backend/service/ImageService.java:122-130 | a segment's extension starts with its only '.', is the suffix from the segment's last '.' or ".png", and holds no '/' or '?' a segment free of them lacks |
| ImageService.EndingChar | src/main/java/com/nextpage/backend/service/ImageService.java:133-135 | endsWith: a string with a given ending holds each character of the ending at the matching position from its end |
| ImageService.EndingsExclusive | src/main/java/com/nextpage/backend/service/ImageService.java:132-137 | no key ends with two of the recognised endings |
| ImageService.DetectContentType | src/main/java/com/nextpage/backend/service/ImageService.java:132-137 | each content type is reported exactly for its endings, and octet-stream exactly when none applies |
| ImageService.TempFileName | src/main/java/com/nextpage/backend/service/ImageService.java:90 | the name createTempFile generates, before normalising it, starts with the prefix, ends with the suffix, and has the random part between them |
| ImageService.UnsignedDecimal | src/main/java/com/nextpage/backend/service/ImageService.java:90 | the random number createTempFile inserts is written as a non-empty run of decimal digits |
| ImageService.WithoutTrailingSlashes | src/main/java/com/nextpage/backend/service/ImageService.java:90 | a prefix of the name that does not end in '/', with only '/' characters cut after it |
| ImageService.CollapseSlashes | src/main/java/com/nextpage/backend/service/ImageService.java:90 | the collapsed name has the same characters and the same last character as the name, and is the name itself when it has no '/' |
| ImageService.CollapsedHasNoDoubleSlash | src/main/java/com/nextpage/backend/service/ImageService.java:90 | after collapsing, no two '/' stand next to each other |
| ImageService.NormalizeName | src/main/java/com/nextpage/backend/service/ImageService.java:90 | the normalised name is empty only for an empty name, is the name itself without '/', holds a NUL exactly when the name does, holds a '/' exactly when one remains before the trailing ones (or the name is all '/'), and otherwise is the name less its trailing '/' |
| ImageService.NormalizedShape | src/main/java/com/nextpage/backend/service/ImageService.java:90 | the normalised name keeps every character other than '/', has no two '/' in a row, and ends in '/' only when it is "/" |
| ImageService.OriginalKey | src/main/java/com/nextpage/backend/service/ImageService.java:45 | the original key lies under "dalle/", ends with the extension, and has the UUID between them |
| ImageService.ResizedLocation | src/main/java/com/nextpage/backend/service/ImageService.java:47-48 | the resized object lies in the bucket suffixed "-resize", under "resized-" followed by the original key |
| ImageService.ThumbnailKey | src/main/java/com/nextpage/backend/service/ImageService.java:71 | the thumbnail key lies under "dalle-thumb/", ends with ".webp", and has the UUID between them |
| ImageService.ExtensionOfTempFile | src/main/java/com/nextpage/backend/service/ImageService.java:90 | a temporary file created with an extension gives that extension back through getExtension |
| ImageService.ThumbnailKeyIsWebp | src/main/java/com/nextpage/backend/service/ImageService.java:71 | the thumbnail key is detected as image/webp |
| ImageService.EndingOfEnding | src/main/java/com/nextpage/backend/service/ImageService.java:132-137 | of two endings of a string, the shorter ends the longer |
| ImageService.EndsWithAfterPrefix | src/main/java/com/nextpage/backend/service/ImageService.java:45 | an extension placed after any prefix keeps exactly its own recognised endings |
| ImageService.OriginalKeyContentType | src/main/java/com/nextpage/backend/service/ImageService.java:45 | the original key's content type is its extension's |
| ImageService.AcceptedTempNameOfExtension | src/main/java/com/nextpage/backend/service/ImageService.java:90 | with a decimal random part, createTempFile accepts the "dalle-" name exactly when the extension has no NUL and no '/' before its trailing ones, and then the file is named with the extension less those trailing '/' |
| ImageService.TrailingSlashesAfter | src/main/java/com/nextpage/backend/service/ImageService.java:90 | cutting trailing '/' from a + b leaves a alone when a does not end in '/' |
| ImageService.AcceptedAfterPrefix | src/main/java/com/nextpage/backend/service/ImageService.java:90 | behind a text without '/' or NUL, a name is accepted exactly when its ending keeps no '/' before its trailing ones and holds no NUL, and it is then normalised by cutting those |
| ImageService.CutExtension | src/main/java/com/nextpage/backend/service/ImageService.java:90 | an extension that starts with its only '.' keeps that shape when its trailing '/' are cut |
| ImageService.AcceptedFileName | src/main/java/com/nextpage/backend/service/ImageService.java:80-103 | a name built from such an extension, accepted because the extension keeps no '/' before its trailing ones and no NUL, is normalised to the name with the cut extension, which getExtension gives back |
| ImageService.DownloadImage | src/main/java/com/nextpage/backend/service/ImageService.java:80-103 | success exactly for a 2xx status whose temporary-file name, built from getExtensionFromUrl as written, createTempFile accepts once normalised; the file is then "dalle-", the decimal random number and the extension less its trailing '/', and getExtension gives that extension back; a failed send, any other status and a rejected name are all ImageDownloadException |
| ImageService.DownloadOfExtension | src/main/java/com/nextpage/backend/service/ImageService.java:80-103 | a 2xx download whose extension keeps no '/' once its trailing ones go, and holds no NUL, succeeds with the file named after the cut extension |
| ImageService.DownloadOfRejectedExtension | src/main/java/com/nextpage/backend/service/ImageService.java:80-103 | a 2xx download fails with ImageDownloadException when the extension still holds a '/' before its trailing ones |
| ImageService.SlashEndedExtension | src/main/java/com/nextpage/backend/service/ImageService.java:122-130 | as written, "http://x.com/a.png/" has the extension ".png/" |
| ImageService.TrailingSlashDropped | src/main/java/com/nextpage/backend/service/ImageService.java:80-103 | a 2xx download of "http://x.com/a.png/" succeeds with a ".png" temporary file: normalising drops the trailing '/' |
| ImageService.PutRequestAsWritten | src/main/java/com/nextpage/backend/service/ImageService.java:107-110 | as written: the put request carries the bucket, key and file but no metadata |
| ImageService.PutRequest | src/main/java/com/nextpage/backend/service/ImageService.java:107-110 | corrected: the put request also carries the key's content type |
| ImageService.UploadFile | src/main/java/com/nextpage/backend/service/ImageService.java:105-116 | success exactly when S3 accepts the request as built, which carries the bucket, key and file and no metadata; a rejection is ImageUploadException |
| ImageService.UploadWithLambda | src/main/java/com/nextpage/backend/service/ImageService.java:43-50 | a failed download is ImageDownloadException; otherwise the original goes under "dalle/" + uuid + the extension as written less its trailing '/', with the request as written, and the result is "resized-" + that key in the bucket suffixed "-resize" exactly when S3 accepts that put, ImageUploadException otherwise |
| ImageService.UploadWithThumbnailator | src/main/java/com/nextpage/backend/service/ImageService.java:55-78 | a failed download is ImageDownloadException; otherwise success exactly when the WebP conversion succeeds and S3 accepts the request as written for the thumbnail key, returning that key's location; any later failure is ImageUploadException |
| ImageService.UrlPathAfterHost | src/main/java/com/nextpage/backend/service/ImageService.java:122-130 | the path of scheme://host/path is /path, and empty when the host ends the URL |
| ImageService.SegmentAfterHost | src/main/java/com/nextpage/backend/service/ImageService.java:122-130 | the last segment of scheme://host/segment without a query is the segment |
| ImageService.PathRuleIgnoresHost | src/main/java/com/nextpage/backend/service/ImageService.java:122-130 | corrected: a URL whose last segment has no '.' gets ".png", whatever dots its host holds |
| ImageService.PathRuleOfHostOnly | src/main/java/com/nextpage/backend/service/ImageService.java:122-130 | corrected: a URL with a host and no path gets ".png" |
| ImageService.ExtensionFromHostAsWritten | src/main/java/com/nextpage/backend/service/ImageService.java:89-130 | as written, "http://a.b/c" yields ".b/c", whose '/' is not trailing and survives normalising, so createTempFile rejects the name and a download with status 200 fails; "http://a.b" yields ".b" |
| ImageService.HostExtensionWithPath | src/main/java/com/nextpage/backend/service/ImageService.java:122-130 | as written, "http://a.b/c" has the extension ".b/c" |
| ImageService.HostExtensionWithoutPath | src/main/java/com/nextpage/backend/service/ImageService.java:122-130 | as written, "http://a.b" has the extension ".b" |
| ImageService.ContentTypeDroppedAsWritten | src/main/java/com/nextpage/backend/service/ImageService.java:105-111 | the thumbnail key is detected as image/webp, yet a request uploadFile sends carries no metadata; the corrected request carries image/webp |
| OpenAiService.Prompt | src/main/java/com/nextpage/backend/service/OpenAiService.java:77-79 | the prompt is the instruction, a space, then the content |
| OpenAiService.ContentOf | src/main/java/com/nextpage/backend/service/OpenAiService.java:77-79 | recovers a content exactly from strings of the prompt's shape |
| OpenAiService.ContentOfIsInverse | src/main/java/com/nextpage/backend/service/OpenAiService.java:77-79 | every prompt-shaped string is the prompt of the content recovered from it |
| OpenAiService.PrepareRequestBody | src/main/java/com/nextpage/backend/service/OpenAiService.java:76-86 | the body holds exactly the keys prompt, n, size and model; the prompt gives back the content; n = 1, size "1024x1024", model "dall-e-2" |
| OpenAiService.Hundreds | src/main/java/com/nextpage/backend/service/OpenAiService.java:59 | the status class is the hundreds digit of a status between 100 and 999 |
| OpenAiService.HandleResponse | src/main/java/com/nextpage/backend/service/OpenAiService.java:58-74 | an empty body raises nothing whatever the status and hands the caller null; otherwise OpenAiClientException exactly for 4xx and OpenAiServerException exactly for 5xx, each carrying only its error code, and for other statuses the decoded map, or DecodeFailed exactly when the body does not decode |
| OpenAiService.ErrorStatusIgnoresBody | src/main/java/com/nextpage/backend/service/OpenAiService.java:58-70 | on a 4xx or 5xx status with a non-empty reply body the result is a failure that does not depend on what that body holds |
| OpenAiService.HandleResponseIntended | src/main/java/com/nextpage/backend/service/OpenAiService.java:58-70 | corrected: OpenAiClientException exactly for 4xx and OpenAiServerException exactly for 5xx, an empty body included; other statuses as written |
| OpenAiService.IntendedAgreesOnNonEmpty | src/main/java/com/nextpage/backend/service/OpenAiService.java:58-74 | the corrected handling agrees with the written one exactly when the body is non-empty or the status is not 4xx or 5xx |
| OpenAiService.ExtractImageUrl | src/main/java/com/nextpage/backend/service/OpenAiService.java:88-98 | succeeds exactly when "data" is a non-empty list whose first element is a map with a string url, returning that url; OpenAiResponseException exactly when "data" is missing or empty, or the first element's url is missing or null |
| OpenAiService.ImageUrlOfReply | src/main/java/com/nextpage/backend/service/OpenAiService.java:41-48 | a raised exception propagates, a reply that completed empty dereferences null in extractImageUrl, and a map goes to extractImageUrl |
| OpenAiService.EmptyErrorReplyAsWritten | src/main/java/com/nextpage/backend/service/OpenAiService.java:45-48 | an empty 404 reply raises nothing in handleResponse and ends in a null dereference; the corrected handling reports OpenAiClientException |
| OpenAiService.ReplyOf | src/main/java/com/nextpage/backend/service/OpenAiService.java:90-91 | a well-formed reply has exactly the key "data", listing one entry per URL |
| OpenAiService.ExtractFromReply | src/main/java/com/nextpage/backend/service/OpenAiService.java:88-98 | on a well-formed reply extraction yields the first URL, or OpenAiResponseException when no image came back |

## Left out

- The repository's queries are Neo4j Cypher in `StoryRepository`, which is not part of this
  model. Their results are defined here by their meaning: the stories that satisfy the
  query, in creation order. The order Neo4j itself returns is not modelled.
- `Repository.StoryRepository.Save` receives the story with its id already assigned. The
  caller passes a fresh id; id generation is the database's job.
- `Repository.StoryRepository.Save` requires an absent or stored parent. generateStory only
  passes a parent loaded from the store, so it meets this precondition.
- The DTO classes (`RootResponseDTO`, `StoryDetailsResponseDTO`, `ScenarioResponseDTO`,
  `StoryListResponseDTO`) and the body of `StorySaveRequest.toEntity` are not part of this model.
  - Their fields are taken to be the obvious ones: id, nickname, content, image URL,
    parent id and child lists.
  - StoryService.ToEntity models the call at StoryService.java:70 and is taken to copy the
    content and to link the given parent.
- StoryService.GenerateStory returns the saved story, where the Java method returns
  nothing. This lets the contract name the new story.
- StoryService.GetUserNickname: a token the token service rejects is reported as
  `InvalidToken`. What the token service throws is not part of this model.
- StoryService.GenerateStory: the RuntimeException that wraps a failed image step is
  `ImageProcessingFailed` carrying the image error. Its message text and the logging are
  left out.
- HTTP, S3, temporary files and stream copying are left out: they are I/O. Their outcomes
  are parameters:
  - the download status, None when sending or copying throws;
  - the random number in a temporary file name;
  - the converted WebP file, None when Thumbnailator or the WebP writer throws;
  - whether S3 accepts a put request.
- `amazonS3.getUrl` is left out: it belongs to the S3 client. The flows return the bucket
  and key of the object instead of the URL's text.
- `UUID.randomUUID()` is an input.
- `meta.setContentLength(file.length())` is left out: file sizes are not modelled.
- ImageService.DownloadImage: the random number of the temporary file name is a parameter,
  and a failure while sending the request or copying the body is folded into a status of
  None. `File.createTempFile` is modelled by its naming rule as OpenJDK 21 has it: the name
  is normalised (trailing '/' cut, runs of '/' collapsed) and rejected when it then holds a
  '/' or a NUL character. Other JDK releases are not modelled. The shortening of a name
  longer than the file system allows (255 characters on common Unix file systems) is not
  modelled: the model always gives the full name. The temporary directory's path is assumed
  to hold no NUL character, and the other I/O failures of `createTempFile` are not
  modelled.
- `OpenAiService.generateImage` is modelled only between the exchange and the upload, by
  `ImageUrlOfReply`. The WebClient exchange itself is network and reactive plumbing. The
  upload step, with its wrapping of image errors, mirrors generateStory.
- OpenAiService.HandleResponse: the reply body enters as a string, and only whether it is
  empty matters. A non-empty 4xx or 5xx body feeds only the log line and the message the
  client exception discards. The JSON decoder is a collaborator; its result is a parameter,
  and a body it cannot read is `DecodeFailed`.
- OpenAiService.ErrorStatusIgnoresBody: covers non-empty reply bodies only. An empty 4xx or
  5xx reply raises nothing in handleResponse (the Mono completes empty), and the caller
  then dereferences null in extractImageUrl; see `EmptyErrorReplyAsWritten` and Findings.
- JSON numbers are integers here: floating point is left out. The exceptions a reply of
  the wrong shape provokes are modelled only as their kind: `NullDereference` for a
  NullPointerException and `WrongType` for a ClassCastException.
- Logging is left out everywhere.
- Concurrency and transactions are left out. The store is changed by one save at a time.

## Findings

| source | as written | input that shows it | evidently intended | confidence | as-written member | corrected member |
|---|---|---|---|---|---|---|
| src/main/java/com/nextpage/backend/service/ImageService.java:122-130 | getExtensionFromUrl takes the suffix from the last '.' anywhere in the URL, host name included | "http://a.b/c" gives ".b/c", a suffix with a path separator that normalising keeps, so createTempFile rejects it and the download fails | the extension of the last segment of the URL's path (scheme, host and query excluded), ".png" when it has none | medium, not executed | ImageService.ExtensionFromHostAsWritten | ImageService.GetExtensionFromPath |
| src/main/java/com/nextpage/backend/service/ImageService.java:105-111 | uploadFile fills an ObjectMetadata with the detected content type but builds the PutObjectRequest without it | any upload; uploading the thumbnail key "dalle-thumb/u.webp" detects "image/webp", yet the request carries no metadata | the request carries the metadata, so S3 stores the detected content type | high, not executed | ImageService.ContentTypeDroppedAsWritten | ImageService.PutRequest |
| src/main/java/com/nextpage/backend/service/OpenAiService.java:58-70 | the 4xx and 5xx branches raise their exception inside a flatMap over the body, so a reply with an empty body completes empty and raises nothing | a 404 reply with an empty body: block() returns null and extractImageUrl dereferences it, so a NullPointerException replaces OpenAiClientException | every 4xx reply fails with OpenAiClientException and every 5xx reply with OpenAiServerException, whatever the body | medium, not executed | OpenAiService.EmptyErrorReplyAsWritten | OpenAiService.HandleResponseIntended |
