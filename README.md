# mxsniffer in Dafny

A verified model of the core of mxsniffer. The library names the email
service provider behind an email address, a URL or a domain name. It looks
up the domain's MX records and matches the mail-exchange hostnames against a
table of known providers.

The model has five modules:

- `Text`: Python 2 byte-string lowercasing, plus the two `split` idioms the
  source uses (`s.split(c)[0]` and `s.split(c, 1)[-1]`).
- `Registry`: the provider table and the reverse index (lowercased hostname
  to provider name). The package builds this index when it is imported. The
  model builds it with the source's nested loop and proves it equal to a
  fold over the table. Lemmas give the keys and values of the index, and
  show that the last provider wins when a hostname appears twice.
- `Extract`: `get_domain`. It has three branches in a fixed order: email
  (`@` present), URL (`//` present) and bare. The two library parsers it
  calls are function parameters, so only the code's own post-processing is
  modelled.
- `Order`: Python's ordering of `(preference, exchange)` tuples and of
  strings, and `sorted`. The sorted permutation is proved unique, so any
  sorting algorithm gives the same sequence.
- `Sniff`: `mxsniff`. The resolver's answer is a datatype: records,
  `NoAnswer`, `NXDOMAIN`, or another DNS failure with class name and
  message. The result is either the provider list or the
  `MXLookupException` message. The matching loop is a method proved against
  a fold. Lemmas about that fold cover duplicates, completeness, ordering,
  the first provider, the single-provider case, and independence from the
  resolver's record order.

Two behaviours of the code are easy to misread:

- Email branch: the code takes the text after the FIRST `@` of the address
  `parseaddr` returns. An address without `@` is returned whole, even if it
  is empty.
- Sorting: `sorted` compares whole `(preference, exchange)` tuples, so
  records with equal preference are ordered by exchange name. The
  resolver's order never matters (`Sniff.AnswerOrderIrrelevant`).

## Model

| member | source | states |
|---|---|---|
| `Registry.BuildReverseIndex` | mxsniffer/__init__.py:18-22 | the nested loop leaves the dictionary equal to the fold of all providers' lowercased hostnames, in table order |
| `Registry.AddHostsEffect` | mxsniffer/__init__.py:21-22 | one provider's inner loop: its lowercased hostnames map to its name; every other key keeps its old value; no other key appears |
| `Registry.ReverseIndexKeys` | mxsniffer/__init__.py:18-22 | a string is a key exactly when it is the lowercase form of some hostname of some provider in the table |
| `Registry.ReverseIndexLastWins` | mxsniffer/__init__.py:20-22 | a key's value is the name of a provider that lists the hostname, and no later provider in the table lists it |
| `Registry.ReverseIndexKeysLowered` | mxsniffer/__init__.py:22 | every key of the index has no ASCII capital |
| `Text.CutAt` | mxsniffer/__init__.py:45 | `split(':')[0]`: a prefix of the input with no `:`; it is the whole input, or it stops just before the first `:` |
| `Text.AfterFirst` | mxsniffer/__init__.py:43 | `split('@', 1)[-1]`: the suffix after the first `@` when there is one, otherwise the whole string |
| `Extract.GetDomain` | mxsniffer/__init__.py:29-48 | branch by branch: email input gives the parsed address after its first `@`, or the whole parsed address; URL input gives a `:`-free prefix of the netloc ending at its first `:`; any other input comes back unchanged |
| `Extract.EmailDomain` | mxsniffer/__init__.py:40-43 | a parsed address `local@rest` whose local part has no `@` yields `rest` |
| `Extract.UrlDropsPort` | mxsniffer/__init__.py:44-45 | a netloc `host:port` yields `host` |
| `Extract.EmailExample` | mxsniffer/__init__.py:33-34 | `'example@example.com'` gives `'example.com'` |
| `Extract.UrlExample` | mxsniffer/__init__.py:35-36 | `'http://www.example.com'` gives `'www.example.com'` |
| `Extract.BareExample` | mxsniffer/__init__.py:37-38 | `'example.com'` gives `'example.com'` |
| `Order.Sort` | mxsniffer/__init__.py:73-74 | `sorted`: the result is in ascending tuple order and is a permutation of the input |
| `Order.SortedUnique` | mxsniffer/__init__.py:73-74 | two sorted permutations of the same records are equal, so the result of `sorted` is fully determined |
| `Sniff.Normalise` | mxsniffer/__init__.py:73 | the exchange name loses one trailing dot, if it has one, and is lowercased; the root name `.` stays `.`; the result has no ASCII capital |
| `Sniff.PrepareAnswers` | mxsniffer/__init__.py:73-74 | `answers` is sorted and is a permutation of the normalised records |
| `Sniff.MapPermutation` | mxsniffer/__init__.py:73 | applying a per-record step such as the normalisation to a permutation of the records gives a permutation of the results |
| `Sniff.AnswerOrderIrrelevant` | mxsniffer/__init__.py:73-74 | two answers holding the same records in any order give the same `answers` |
| `Sniff.MatchProviders` | mxsniffer/__init__.py:75-79 | the loop's `result` equals the fold over the sorted answers that appends a known exchange's provider when it is not yet listed |
| `Sniff.MatchedNoDuplicates` | mxsniffer/__init__.py:76-79 | no provider appears twice in the result |
| `Sniff.MatchedFromIndex` | mxsniffer/__init__.py:76-77 | every provider in the result is a value of the reverse index |
| `Sniff.MatchedComplete` | mxsniffer/__init__.py:73-79 | a provider is in the result exactly when some normalised exchange in the answer maps to it |
| `Sniff.MatchedOrder` | mxsniffer/__init__.py:73-79 | for any two providers in the result, the earlier one has a matching record that comes before every record matching the later one |
| `Sniff.MatchedHead` | mxsniffer/__init__.py:73-79 | the first provider listed is the provider of the lowest-sorted record whose exchange is in the index |
| `Sniff.MatchedEmpty` | mxsniffer/__init__.py:75-79 | the result is empty exactly when no exchange of the answer is in the index |
| `Sniff.MatchedFromTable` | mxsniffer/__init__.py:76-77 | with the index built from the table, each listed provider is the name of the last table entry that lists some answer's (lowercase) exchange |
| `Sniff.SingleProvider` | mxsniffer/__init__.py:76-79 | when every known exchange maps to one provider, the result is that provider once if any exchange is known, and empty otherwise |
| `Sniff.MxSniff` | mxsniffer/__init__.py:68-85 | `NoAnswer` and `NXDOMAIN` give `[]`; any other DNS failure gives only the error `"<ClassName> <message>"`, with no list; records give the matched providers of the sorted, normalised answer, with no duplicates, all from the index |

## Left out

- The DNS query `dns.resolver.query(domain, 'MX')` is network I/O. It is the parameter `resolve` of `Sniff.MxSniff`, returning an `Answer`.
- `email.utils.parseaddr` and `urlparse(...).netloc` are library code that is not part of this model. They are the parameters `parseAddr` and `netloc`. Nothing is assumed about them, so the email and URL doc examples are proved for any parser that gives the standard result on those inputs.
- The contents of `.providers` and `._version` are static data that is not part of this model. The provider table is a parameter: a sequence of (name, hostnames) pairs. Its order stands for the dictionary's iteration order, which Python 2 leaves unspecified.
- The four `mxsniff` doc examples depend on live DNS answers and on the real provider table, so they are not stated. The `NXDOMAIN` case behind `'__invalid_domain_name__.com'` is covered by the contract of `Sniff.MxSniff`.
- `Sniff.MxSniff` takes the reverse index as a parameter. What the source reads is the module-level dictionary that `Registry.BuildReverseIndex` models.
- `Text.Lower` lowercases ASCII capitals only. This matches `str.lower()` on Python 2 byte strings, but not the Unicode lowercasing of `unicode` values.
- Exceptions that are not `DNSException`s propagate out of `mxsniff` unchanged. The model does not represent them.
- The `MXLookupException` class hierarchy and `unicode(e)` formatting are left out. Only the message shape is kept: class name, one space, message.
- `dnspython`'s name-to-text conversion (label escaping) is left out. An exchange is given as its text. `omit_final_dot=True` drops one trailing `.`, except for the root name `.` (a null MX record, RFC 7505), whose text stays `.`.
