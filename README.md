# Bloodhound, modelled in Dafny

Bloodhound is a one-file audit script, `bloodhound.py`. It visits the seven
AWS regions a student account may use. In each region it collects two lists:

- the IDs of EC2 instances that are neither stopped nor terminated;
- the identifiers of all RDS database instances.

It stores the two lists in a dictionary keyed by region. It then formats one
Slack message: a two-line banner, one line per region that has at least one
resource, and a closing call to action.

This project models that core and proves properties of it:

- `Ec2Scan`: `search_regions_for_ec2_resources`. Its input is the
  `describe_instances` response.
- `RdsScan`: `search_regions_for_rds_resources`. Its input is the
  `describe_db_instances` response.
- `Report`: `format_message`.
- `Bloodhound`: `STUDENT_REGIONS` and the aggregation loop of `main`. The
  provider's answers are a function `cloud` from region name to the two
  responses.
- `Text`: ASCII `str.upper` and the decimal rendering of a count.

Each scanner and the formatter is a method with a loop. Each method is proved
equal to a specification function. The lemmas state what those functions
promise.

**The EC2 scanner is modelled as the code is written, not as intended.** The
function's TODO note (`bloodhound.py:37-42`) asks for the parsing to
change, and explains that instances launched together share a reservation.
Read together with the comments at lines 48 and 54, this means that the
multi-reservation branch misses every instance of a reservation but the
first. What the code does:

- With exactly one reservation, it examines every instance of it.
- With any other number of reservations, it examines only `Instances[0]` of
  each reservation.
- In that second branch, an empty reservation raises an `IndexError`. The
  `except` clause turns that error into an empty result, which discards
  whatever earlier reservations contributed.

The model follows the code. The following lemmas make the gap visible:

- `Ec2Scan.Ec2LaterInstancesIgnored`;
- `Ec2Scan.Ec2EmptyReservationDiscards`;
- `Ec2Scan.Ec2FirstInstanceOnlyExample`, a two-reservation response in which
  the second running instance of the first reservation is not reported.

## Model

| member | source | states |
|---|---|---|
| Ec2Scan.SearchEc2 | bloodhound.py:36-62 | The loop yields the scanner's result. With one reservation, these are the active IDs of all its instances. With another number of reservations, all non-empty, they are the active IDs of the first instances. Otherwise the result is empty. |
| Ec2Scan.ActiveIdsAppend | bloodhound.py:50-53 | Filtering distributes over concatenation, so kept IDs stay in instance order. |
| Ec2Scan.ActiveIdsMembership | bloodhound.py:50-53 | An ID is kept if and only if some instance with that ID is neither "stopped" nor "terminated". |
| Ec2Scan.ActiveIdsCount | bloodhound.py:50-53 | The number of kept IDs is the number of instances minus the number of inactive ones. |
| Ec2Scan.Ec2ReportsExactlyActive | bloodhound.py:47-61 | When no IndexError fires, a reported ID belongs to an examined active instance, and every examined active instance is reported. When it fires, the result is empty. |
| Ec2Scan.Ec2InactiveNeverReported | bloodhound.py:51-52 | An examined stopped or terminated instance is not reported, unless an active instance carries the same ID. |
| Ec2Scan.Ec2SingleReservation | bloodhound.py:49-53 | With exactly one reservation, every instance in it is examined, in order. |
| Ec2Scan.Ec2LaterInstancesIgnored | bloodhound.py:55-59 | With any other number of reservations, an instance past the first in its reservation is never reported, unless a first instance has the same ID. |
| Ec2Scan.Ec2EmptyReservationDiscards | bloodhound.py:56-61 | With two or more reservations, one empty reservation raises the IndexError and the whole result is empty. |
| Ec2Scan.Ec2NoReservations | bloodhound.py:55-62 | A response with no reservations examines nothing and reports nothing, without an error. |
| Ec2Scan.Ec2FirstInstanceOnlyExample | bloodhound.py:55-59 | With two reservations, [i-1 running, i-2 running] and [i-3 stopped], the result is exactly ["i-1"]. |
| RdsScan.DbIdsProjection | bloodhound.py:31-32 | The RDS result has one identifier per database record, verbatim, at the record's position. |
| RdsScan.SearchRds | bloodhound.py:26-33 | The loop returns every database identifier, in response order, with no filtering. |
| Report.FormatMessage | bloodhound.py:65-72 | The loop returns the banner, then the line of each reported region in dictionary order, then the closing text. |
| Report.MessageFrame | bloodhound.py:66-71 | Every message starts with the banner and ends with the closing line. |
| Report.RenderAppend | bloodhound.py:67-70 | Rendering distributes over concatenation of the region list. |
| Report.RenderStep | bloodhound.py:67-70 | One more region adds its line when it has a resource and nothing otherwise. |
| Report.ReportedAppend | bloodhound.py:67-69 | Selecting the reported regions keeps their relative order. |
| Report.ReportedMembership | bloodhound.py:67-69 | A region is reported if and only if it is in the dictionary and one of its lists is non-empty. |
| Report.RenderIsReportedLines | bloodhound.py:67-70 | The rendered body is one line per reported region, in order. This holds for any line writer. |
| Report.BodyIsReportedLines | bloodhound.py:67-70 | The body of the message is one region line per reported region, in dictionary order. |
| Report.RenderNothing | bloodhound.py:67-69 | Regions that all have empty lists render nothing and none is reported. |
| Report.AllEmptyMessage | bloodhound.py:65-72 | With no resources anywhere, the message is the banner followed directly by the closing line. |
| Report.SingleReportedRegion | bloodhound.py:67-70 | With exactly one region holding resources, the body is that region's line alone. |
| Report.BannerTitleSpelling | bloodhound.py:66 | The banner's first line is exactly the script's ":dog2: Woof! Woof! :dog2:". |
| Report.BannerLeadSpelling | bloodhound.py:66 | The banner's second line is exactly the script's text, including its leading and trailing space. |
| Report.ClosingSpelling | bloodhound.py:71 | The closing line is exactly "Please stop or terminate all unneeded resources!". |
| Report.FixedTextHasNoBreak | bloodhound.py:66-71 | The two banner texts and the closing text hold no line break. |
| Report.RegionLineIsOneLine | bloodhound.py:70 | A region line is one line ending in a line break, as long as the region name holds no line break. |
| Report.RenderLineBreaks | bloodhound.py:67-70 | The body has as many line breaks as there are reported regions. |
| Report.MessageLineCount | bloodhound.py:65-72 | The message has two line breaks plus one per reported region. |
| Text.UpperShape | bloodhound.py:70 | Upper-casing keeps the length, maps each character on its own, leaves no lower-case letter and changes nothing else. |
| Text.UpperIdempotent | bloodhound.py:70 | Upper-casing twice is upper-casing once. |
| Text.UpperKeepsNonLetters | bloodhound.py:70 | Upper-casing neither adds nor removes a non-letter character such as a line break. |
| Text.NatToString | bloodhound.py:70 | A count renders as at least one decimal digit, with no leading zero, and "0" only for zero. |
| Text.NatToStringRoundTrip | bloodhound.py:70 | Reading a rendered count back gives the count. |
| Text.NatToStringInjective | bloodhound.py:70 | Different counts render differently. |
| Bloodhound.StoreNewKey | bloodhound.py:86 | Storing under a new region appends the entry to the dictionary. |
| Bloodhound.StoreExistingKey | bloodhound.py:86 | Storing under a region already present replaces that entry and keeps its position. |
| Bloodhound.AggregateOfDistinct | bloodhound.py:84-87 | With distinct regions, the dictionary has one entry per region, in region order, holding both scan results. |
| Bloodhound.CollectResources | bloodhound.py:84-87 | The loop builds the dictionary. With distinct regions, entry i holds region i's EC2 and RDS results. |
| Bloodhound.Audit | bloodhound.py:81-88 | `main` formats the message of the dictionary built over the student regions. |
| Bloodhound.StudentRegionsDistinct | bloodhound.py:11-19 | The seven student regions are distinct. |
| Bloodhound.StudentRegionsOneLine | bloodhound.py:11-19 | No student region name holds a line break. |
| Bloodhound.StudentAggregate | bloodhound.py:84-87 | Every one of the seven student regions gets its entry, in configured order, even when both its lists are empty. |
| Bloodhound.AuditLineCount | bloodhound.py:81-88 | The audit message has two line breaks plus one per student region with a resource. |
| Bloodhound.AuditAllEmpty | bloodhound.py:81-88 | With nothing running anywhere, the audit message is the banner followed by the closing line. |
| Bloodhound.AuditSingleRegion | bloodhound.py:81-88 | With exactly one student region holding resources, the message is the banner, that region's line and the closing line. |
| Bloodhound.UsEastOnlyScans | bloodhound.py:84-87 | Worked run, scans: us-east-1 (i-a and i-b running, i-c stopped, db-1) gives ["i-a", "i-b"] and ["db-1"]. The other regions report nothing. |
| Bloodhound.UsEastLine | bloodhound.py:70 | Worked run, the region line: `- *US-EAST-1*: 2 ec2 instances, 1 rds instances` followed by a line break. |
| Bloodhound.AuditUsEastOnly | bloodhound.py:81-88 | Worked run, the whole message: the banner, the us-east-1 line, then the closing line. |

## Left out

- The boto3 session and the two provider calls (lines 22-23, 29-30, 45-46) are not modelled. The responses they return are the inputs. `cloud` gives both responses of a region.
- Pagination is not modelled. Only one response page is read, as in the code.
- Errors the provider calls raise are not modelled. Neither is the `KeyError` of a response missing a key. Every response is assumed well-formed.
- `load_dotenv`, the environment variables and `send_slack_message` (lines 9, 75-78, 90) are I/O and are left out. `Bloodhound.Audit` returns the message that would be sent.
- The progress and result prints (lines 28, 44, 83, 89) are output only and are left out.
- Text.Upper: models `str.upper` on ASCII only (a-z to A-Z). Python upper-cases every Unicode letter. The region names are ASCII.
- Bloodhound.CollectResources: lines 86-87 first store the EC2 dictionary, then add the "rds" key to it. The model stores the finished entry once. Nothing reads the intermediate state.
