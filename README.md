# Slime Library: localised text selection and catalog assembly

This project models the two pieces of decision logic in the Slime/Gosti
library app. The rest of the app is React UI and RPC glue.

- **MediaPage** (`media_page.dfy`). When the media detail dialog opens, the
  page picks a title, a short description and a long description from the
  media item's localised `titles` and `descriptions`. It walks the user's
  ordered list of preferred languages. In each language it takes the first
  matching entry, unless an earlier language already supplied one. Anything
  still missing falls back to the first entry of the list. For descriptions
  that fallback entry is used whatever its type.
  - The specification is a set of functions on sequences (`TitleIn`,
    `DescriptionIn`, `PreferredTitle`, `PreferredDescription`, `Localize`).
  - The page's React state is the class `PageState`. Its method
    `SelectTexts` mirrors the effect's loop over languages and its `found*`
    flags, and calls one method per inner `forEach` closure. It is proved
    to set each text to `Localize`'s choice with exactly one setter call
    per text.
- **App** (`app.dfy`).
  - `LoadNfts` keeps the ids of the NFT wallets, asks `getNfts` for them and
    flattens the per-wallet lists.
  - `Merge` is the four-way decision for one NFT over "local record
    found?" and "marketplace record found?". It gives the entry to show and
    the record to save.
  - `LoadMediaData` folds `Merge` over the NFTs.
  - `FetchSearchResults` composes these once the wallet session is
    acknowledged.
  - `OnConnect` decides what the connect button does from the number of
    pairings.
- **Options** (`options.dfy`) holds the `Option` type. `None` stands for
  `undefined`, `null`, or a lookup whose exception was caught.

The RPCs are parameters: `getNfts` is a function argument, and `lookUp`
stands for the metadata fetch plus the two record lookups of one NFT. The
output list and the list of saves are results.

Two facts about the code shape the merge:

- The marketplace record is saved whenever there is one, including when a
  local record also exists. The version check at src/App.tsx:103,105 is
  commented out.
- Results are pushed into an array with no de-duplication by product id.
  `DuplicateProductsAreKept` and `EmittedAppend` state this.

## Model

| member | source | states |
|---|---|---|
| MediaPage.TitleIn | src/components/MediaPage.tsx:95-100 | computes the title of the first `titles` entry in one language, or none; described by `TitleInIsFirstMatch`, `TitleInNone` and `TitleInIsSomeEntry` |
| MediaPage.DescriptionIn | src/components/MediaPage.tsx:103-116 | computes the text of the first `descriptions` entry of one language and one type, or none; described by `DescriptionInIsFirstMatch`, `DescriptionInNone`, `DescriptionInIsSomeEntry` and `DescriptionInOnlyOfType` |
| MediaPage.PreferredTitle | src/components/MediaPage.tsx:93-101 | computes the title of the earliest listed language that has one, or none; described by `PreferredTitleIsEarliestLanguage`, `PreferredTitleNoLaterThan`, `PreferredTitleNone` and `PreferredTitleIsSomeEntry` |
| MediaPage.PreferredDescription | src/components/MediaPage.tsx:93-117 | computes the description of one type from the earliest listed language that has one, or none; described by `PreferredDescriptionIsEarliestLanguage`, `PreferredDescriptionNone`, `PreferredDescriptionIsSomeEntry` and `PreferredDescriptionOnlyOfType` |
| MediaPage.LanguageList | src/components/MediaPage.tsx:93 | computes the languages walked by `slimeConfig?.languages.forEach`: the configured list, or no languages when the configuration is absent; used by `Localize` and `TitleFallback` |
| MediaPage.OfType | src/components/MediaPage.tsx:104-112 | the entries of one type, in order: no longer than the input, and every entry has that type; the reference for `DescriptionInOnlyOfType` and `PreferredDescriptionOnlyOfType` |
| MediaPage.TitleInIsFirstMatch | src/components/MediaPage.tsx:95-100 | if entry j is the first title in a language, that language's title is entry j's |
| MediaPage.TitleInNone | src/components/MediaPage.tsx:95-100 | a language yields no title exactly when no entry has that language |
| MediaPage.TitleInIsSomeEntry | src/components/MediaPage.tsx:95-100 | a title found for a language is the text of an entry in that language |
| MediaPage.DescriptionInIsFirstMatch | src/components/MediaPage.tsx:103-116 | if entry j is the first description of a given language and type, that is the one found |
| MediaPage.DescriptionInNone | src/components/MediaPage.tsx:103-116 | none is found exactly when no entry has both that language and that type |
| MediaPage.DescriptionInIsSomeEntry | src/components/MediaPage.tsx:103-116 | a found description is the text of an entry of that language and type |
| MediaPage.DescriptionInOnlyOfType | src/components/MediaPage.tsx:104-112 | within one language only entries of the requested type matter: the filtered list gives the same answer |
| MediaPage.PreferredTitleIsSomeEntry | src/components/MediaPage.tsx:93-101 | a preferred title is the text of some title entry |
| MediaPage.PreferredDescriptionIsSomeEntry | src/components/MediaPage.tsx:93-117 | a preferred description of a type is the text of some entry of that type |
| MediaPage.PreferredTitleNone | src/components/MediaPage.tsx:93-101 | no title is preferred exactly when no listed language has a title |
| MediaPage.PreferredTitleIsEarliestLanguage | src/components/MediaPage.tsx:93-101 | the chosen title is the first-match title of the earliest listed language that has any match |
| MediaPage.PreferredTitleNoLaterThan | src/components/MediaPage.tsx:94-96 | when language i has a title, the choice comes from language i or an earlier one, never a later one |
| MediaPage.PreferredDescriptionNone | src/components/MediaPage.tsx:102-117 | no description of a type is preferred exactly when no listed language has one of that type |
| MediaPage.PreferredDescriptionIsEarliestLanguage | src/components/MediaPage.tsx:102-117 | the chosen short or long description comes from the earliest listed language that has one of that type |
| MediaPage.PreferredDescriptionOnlyOfType | src/components/MediaPage.tsx:104-112 | the short description depends only on the `short` entries and the long one only on the `long` entries |
| MediaPage.Localize | src/components/MediaPage.tsx:87-128 | needs non-empty titles and descriptions (the fallback reads element 0); each shown text is the text of some entry of its list |
| MediaPage.TitleFallback | src/components/MediaPage.tsx:120-122 | with no title in any listed language, or no language list, the title is `titles[0].title` |
| MediaPage.DescriptionFallback | src/components/MediaPage.tsx:123-128 | with no match of a type, that text is `descriptions[0].description`, whatever entry 0's type |
| MediaPage.TitleFromEarliestLanguage | src/components/MediaPage.tsx:93-122 | the title shown is entry j when language i is the earliest with a title and j is its first entry in language i |
| MediaPage.DescriptionFromEarliestLanguage | src/components/MediaPage.tsx:102-117 | the short (or long) description shown is entry j when language i is the earliest with an entry of that type and j is its first such entry |
| MediaPage.LongDescriptionServesAsShort | src/components/MediaPage.tsx:123-127 | an illustration of `DescriptionFallback`: a media item whose only description is long shows that text as both short and long description |
| MediaPage.PageState.constructor | src/components/MediaPage.tsx:83-85 | title, description and long description start undefined and no setter has been called |
| MediaPage.PageState.ScanTitles | src/components/MediaPage.tsx:95-100 | the title closure for one language: reports whether a title in that language exists, and if so sets the title to the first one with a single setter call, otherwise changes nothing |
| MediaPage.PageState.ScanShortDescriptions | src/components/MediaPage.tsx:103-108 | the same for the first `short` description in that language |
| MediaPage.PageState.ScanLongDescriptions | src/components/MediaPage.tsx:111-116 | the same for the first `long` description in that language |
| MediaPage.PageState.SelectTexts | src/components/MediaPage.tsx:87-130 | when open, the three texts become `Localize`'s choice and each setter is called exactly once; when closed, nothing changes |
| App.NftWalletIds | src/App.tsx:58-62 | computes the ids of the wallets whose type is `Nft`, in input order; described by `NftWalletIdsSelectsNftWallets` |
| App.Flatten | src/App.tsx:66-70 | computes the concatenation of the per-wallet NFT lists in entry order; described by `FlattenAppend`, `FlattenLength` and `FlattenContains` |
| App.NftWalletIdsSelectsNftWallets | src/App.tsx:56-62 | the ids sent to `getNfts` are exactly the ids of the NFT wallets, in input order, none skipped |
| App.FlattenAppend | src/App.tsx:66-70 | flattening keeps entry order: the NFTs of earlier entries come first |
| App.FlattenLength | src/App.tsx:66-70 | the NFT list is as long as all per-wallet lists together |
| App.FlattenContains | src/App.tsx:66-70 | an NFT is in the list exactly when it is in one of the per-wallet lists |
| App.LoadNfts | src/App.tsx:52-74 | the loops request `NftWalletIds(wallets)` and return the flattening of that request's response |
| App.Merge | src/App.tsx:101-115 | nothing is emitted iff both lookups failed; a marketplace record is always emitted and always saved, even when equal to the local one; a local record alone is emitted and not saved |
| App.Outcome | src/App.tsx:101-115 | computes one NFT's merge outcome from its two lookups, by `Merge` |
| App.Emitted | src/App.tsx:79-116 | computes the result list: each NFT's emitted entry, if any, in NFT order; described by `EmittedAppend`, `EmittedLength`, `EmittedComesFromLookup` and `DuplicateProductsAreKept` |
| App.Saved | src/App.tsx:101-115 | computes the records saved to the local store, one per NFT with a marketplace record, in NFT order; described by `EmittedAppend`, `EmittedLength` and `SavedAreEmitted` |
| App.LoadMediaData | src/App.tsx:76-119 | the loop's result list and saves are the per-NFT merge outcomes concatenated in NFT order |
| App.EmittedAppend | src/App.tsx:79-116 | the result and saves for two batches are the concatenations of each batch's, with no merging by product id |
| App.EmittedLength | src/App.tsx:80-116 | saves at most results at most NFTs; the list has one entry per NFT exactly when every NFT has a successful lookup |
| App.SavedAreEmitted | src/App.tsx:101-115 | every saved record is also among the results (as multisets) |
| App.EmittedComesFromLookup | src/App.tsx:101-115 | every result entry is the merge outcome of some NFT |
| App.DuplicateProductsAreKept | src/App.tsx:79-116 | two NFTs with the same product id and marketplace records both appear in the results and are both saved |
| App.FirstSync | src/App.tsx:111-114 | an illustration of `Merge`'s contract: a product known only to the marketplace is shown once and saved once |
| App.LookUpAll | src/App.tsx:80-100 | the per-NFT metadata fetch and the two record lookups, one lookup per NFT in order: as many lookups as NFTs |
| App.FetchSearchResults | src/App.tsx:123-134 | without an acknowledged session nothing happens; with one, the search results are the merged list over all NFTs of the NFT wallets, no longer than the NFT count |
| App.OnConnect | src/App.tsx:39-49 | throws iff there is no client; connects iff at most one pairing; the topic is given iff exactly one, and it is `pairings[0].topic`; several pairings do nothing |

## Left out

- Rendering: the dialog, `MainTopBar`, `MediaCard` and `MediaGrid` are UI with nothing to state. `MediaGrid` only skips falsy items when rendering.
- `CircularProgressWithLabel` (src/components/MediaPage.tsx:46-66) only rounds a floating-point progress value for display.
- The install-status effect and the download, install, uninstall, launch and delete buttons (src/components/MediaPage.tsx:132-148 and onward). They are calls into an RPC API that is not part of this model.
- The metadata fetch and `parseNftMetadata` (src/App.tsx:81-85). Their result, the product id, is an input: it is a field of `NftLookup`, or the job of the `lookUp` parameter. A fetch that throws is not caught, so that NFT pushes nothing and saves nothing. That is the outcome of an `NftLookup` with both lookups `None`.
- App.LoadMediaData: the source starts one `async` callback per NFT with `forEach` and returns the array before any callback finishes. Entries are pushed in completion order. The model is a sequential fold in NFT order, so it does not capture that early return or that nondeterministic order.
- The RPC answers and the local store are parameters and results. The store's own state after `save` is not modelled, and `requestPermissions` (src/App.tsx:125) is left out.
- The WalletConnect client, session, permissions and pairing transport (src/App.tsx:29-37). `OnConnect` returns the action to take. It does not perform the `connect` call or the console logging.
- `WalletType` keeps only the distinction the code tests (`Nft` or not). The enum's other members and numeric values are not part of this model.
- The order of the `getNfts` response's entries is taken as given. JavaScript's key order for `Object.entries` is not modelled.
- MediaPage.Localize: requires non-empty `titles` and `descriptions`. With an empty list the source throws while reading element 0, because an empty list can never match.
- MediaPage.PageState.SelectTexts: requires non-empty lists only when `open`. The state updates made before such a throw are not modelled. A media item without `titles` or `descriptions`, and a configuration without `languages`, would make the source throw. The model takes both lists as present, and an absent configuration as "no languages".
- De-duplication by product id and "save only when changed or newer" are not implemented by the code, so they are not modelled.
- src/util/data.ts is an HTTP fetch plus an unseen parser followed by a field projection. It is not part of this model.
