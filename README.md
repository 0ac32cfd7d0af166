# address-utils, modelled in Dafny

address-utils is a small client for a geocoding HTTP service. Its one piece of
original logic is `parseAddressComponents`. It makes one pass over the ordered
list of tagged address components of a geocoded result and builds a record with
optional `city`, `state` and `country` fields:

- a component tagged `locality` sets `city` to its long name;
- otherwise, one tagged `administrative_area_level_1` sets `state` to its short name;
- otherwise, one tagged `country` sets `country` to its long name;
- any other component is ignored.

Later components overwrite earlier ones.

The model has three modules:

- `Wrappers` (`wrappers.dfy`) holds `Option` and `Result`.
- `AddressComponents` (`address_components.dfy`) holds the parser. Its specification classifies a component by an ordered table of (tag, field, name form) rules, where the first rule whose tag the component carries wins. `Parse` folds the components left to right with `Step`. The method `ParseAddressComponents` is the source's loop: a local record updated through the same if / else-if chain. It is proved equal to `Parse`. The lemmas then state what `Parse` promises:
  - which tag feeds which field, and from which name form;
  - first match wins within a component;
  - last write wins across components;
  - a field is absent exactly when no component was classified into it;
  - only the relative order of components of the same field matters.
- `Geocoding` (`geocoding.dfy`) holds the status branching of `findAddressInfo` and `validateAddress`. Each is a pure function of the decoded reply, meaning its status string and its list of results.

In the source, `types` is an array, so `types.includes(t)` becomes sequence membership `t in types`. Only membership is tested, so the order of `types` and any duplicates in it make no difference.

## Model

| member | source | states |
|---|---|---|
| `AddressComponents.ParseAddressComponents` | index.js:58-70 | The one-pass loop over the components returns exactly the specification record `Parse(components)`. It has no precondition, so parsing is total, including on the empty sequence. |
| `AddressComponents.FirstMatch` | index.js:61-67 | Gives the index of the first rule whose tag the component carries, with no earlier rule matching. It gives None exactly when no rule's tag is present. |
| `AddressComponents.ClassifyByTags` | index.js:61-67 | A component is classified as city iff it has `locality`. It is state iff it has `administrative_area_level_1` and not `locality`. It is country iff it has `country` and neither of the other two. It is ignored iff it has none of the three. |
| `AddressComponents.ValueByField` | index.js:61-66 | City and country take the component's long name and state takes its short name. Only an ignored component contributes no value. |
| `AddressComponents.StepWritesClassifiedField` | index.js:61-67 | One component writes its value to the field it is classified into and leaves the other fields unchanged. An ignored component leaves the record as it was. |
| `AddressComponents.StepByTags` | index.js:61-67 | The rule-table step equals the implementation's if / else-if chain on the three tags, for every record and component. |
| `AddressComponents.ParseSnoc` | index.js:60-68 | Helper: the definition of `Parse` unfolded for a sequence ending in one more component, i.e. one more loop iteration applies one `Step`. |
| `AddressComponents.LocalitySetsCity` | index.js:61-62 | Appending a `locality` component sets `city` to its long name and changes nothing else, even when it also carries `administrative_area_level_1` or `country`. |
| `AddressComponents.AdministrativeAreaSetsState` | index.js:63-64 | Appending a component with `administrative_area_level_1` and without `locality` sets `state` to its short name, not its long name. Nothing else changes. |
| `AddressComponents.CountrySetsCountry` | index.js:65-66 | Appending a component with `country` and neither of the other two tags sets `country` to its long name. Nothing else changes. |
| `AddressComponents.UntaggedIsIgnored` | index.js:60-68 | Appending a component with none of the three tags leaves the record unchanged. |
| `AddressComponents.AbsentIffNeverClassified` | index.js:59-68 | A field of the parsed record is absent exactly when no component of the input was classified into it. |
| `AddressComponents.LastWriteWins` | index.js:60-68 | If component i is the last one classified into a field, that field holds component i's value of the right name form. |
| `AddressComponents.PresentFieldHasSource` | index.js:59-68 | A present field holds the value of some input component that was classified into that field. |
| `AddressComponents.EmptyIffAllIgnored` | index.js:58-69 | The parsed record has all three fields absent exactly when every component is ignored. In particular, the empty input gives the empty record. |
| `AddressComponents.ParseExtends` | index.js:60-68 | The loop carries no state beyond the record: two prefixes that parse to the same record still do so after the same further components. |
| `AddressComponents.IgnoredComponentAnywhere` | index.js:60-68 | Removing an ignored component from any position of the input does not change the parsed record. |
| `AddressComponents.SwapDifferentFields` | index.js:60-68 | Swapping two adjacent components that are classified differently does not change the parsed record. |
| `AddressComponents.NewYorkExample` | index.js:58-70 | A locality, a first-level area and a country component parse to city "New York", state "NY" and country "United States". |
| `AddressComponents.PostalCodeExample` | index.js:58-70 | A single `postal_code` component parses to the empty record. |
| `Geocoding.FindAddressInfoOutcome` | index.js:41-49 | findAddressInfo succeeds exactly on status "OK" with at least one result, and then returns the record parsed from the first result's components. Any other status fails with "Error finding address info: Geocoding error: " followed by the status. Status "OK" with no results fails with "Error finding address info: " followed by the engine's TypeError text. |
| `Geocoding.FindAddressInfoNamesStatus` | index.js:45-49 | For a status other than "OK", stripping the fixed prefix from the failure message gives back exactly the provider's status. |
| `Geocoding.ZeroResultsExample` | index.js:45-49 | A "ZERO_RESULTS" reply fails with the message "Error finding address info: Geocoding error: ZERO_RESULTS". |
| `Geocoding.ValidateAddressOutcome` | index.js:18-24 | validateAddress succeeds exactly on status "OK". It carries the first result when there is one and undefined (None) when the list is empty. Any other status fails with "Error validating address: Geocoding error: " followed by the status, and the status can be read back from that message. |
| `Geocoding.LookupsAgree` | index.js:18-49 | On the same reply, findAddressInfo succeeds exactly when validateAddress yields a result, and then returns the parse of that result. When validateAddress fails, findAddressInfo fails too, and both messages consist of their own prefix followed by "Geocoding error: " and the status. |

## Left out

- The HTTP requests through axios, and the building of the URL and parameters (index.js:12-17, 35-40): network I/O through a library outside the model. Each lookup is modelled as a function of the reply body.
- The `API_KEY` constant (index.js:3): configuration, not logic.
- The asynchronous Promise behaviour, and the wrapping of transport failures (index.js:23-24, 48-49, for errors raised by axios): the message text of those errors comes from the library. Only the errors raised by the module's own code inside the `try` are modelled.
- `Geocoding.FindAddressInfo`: on status "OK" with an empty result list, the source reads `address_components` of `undefined`. The JavaScript engine's TypeError text is then wrapped by the catch block. That text is not modelled: it is the parameter `typeErrorMessage`.
- `validateAddress` returns the provider's raw result object (index.js:19). The model carries it as an opaque type parameter and states nothing about its contents.
- JavaScript's dynamic typing: a `components` value that is not an array, a component without `types`, or names that are not strings. The model's types rule these out.
- The difference between a property that was never set and one set to `undefined`: findAddressInfo's destructuring `{ city, state, country }` (index.js:43-44) gives an object whose three keys all exist, possibly with value `undefined`. Both cases are `None` here.
- `module.exports` (index.js:72-75): module wiring.
