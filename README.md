# GZIP recognizer model

Ghidra's recognizers look at the first bytes of a file and say what kind of file it
appears to be. `GzipRecognizer` answers "File appears to be a GZIP compressed file"
when the byte array starts with the two identification bytes of a GZIP member header
(ID1 = 0x1f, ID2 = 0x8b, section 2.3.1 of RFC 1952) and `null` otherwise. Its
priority is 100, and it needs 2 leading bytes.

The model is pure Dafny functions and lemmas, in four modules:

- `Wrappers` — `Option`, standing for a Java `String` that may be `null`.
- `Rfc1952` — unsigned octets and the member-header predicate `HasMemberId`.
- `JavaLang` — the Java semantics the recognizer depends on. It holds the signed
  `byte` (`JByte`, -128..127) and the `(byte)` narrowing cast (`ToByte`), so that
  `(byte) 0x8b` is -117. It also holds the unsigned view `b & 0xff` (`Unsigned`) and a
  `byte[]` reference that may be `null` (`ByteArray`). Its `Length` and `Load` model
  `a.length` and `a[i]` with their NullPointerException and
  ArrayIndexOutOfBoundsException. Last come the conversions between file octets and
  `byte[]` contents.
- `GzipRecognizer` — the three methods of the class and the properties proved about them.

Java compares the signed bytes `bytes[0] == (byte) 0x1f` and `bytes[1] == (byte) 0x8b`.
The model keeps that signed comparison. `SameOctet` proves it is the same test as
comparing unsigned octets with 31 and 139. The main theorem, `RecognizesFileIffRfcMemberId`,
says that for any file whose octets are read into a `byte[]`, the recognizer's answer
is exactly RFC 1952's identification test on those octets.

## Model

| member | source | states |
|---|---|---|
| `GzipRecognizer.NumberOfBytesRequired` | Ghidra/Features/Recognizers/src/main/java/ghidra/app/util/recognizer/GzipRecognizer.java:35-38 | the number of leading bytes the recognizer needs is the constant 2 |
| `GzipRecognizer.GetPriority` | Ghidra/Features/Recognizers/src/main/java/ghidra/app/util/recognizer/GzipRecognizer.java:30-33 | the priority is the constant 100; it takes no input and reads no state |
| `GzipRecognizer.Recognize` | Ghidra/Features/Recognizers/src/main/java/ghidra/app/util/recognizer/GzipRecognizer.java:19-28 | it throws exactly when the argument is `null`, and then only NullPointerException, so neither indexed read is ever out of bounds; otherwise it returns `null` or the one fixed GZIP message, nothing else |
| `GzipRecognizer.RecognizesExactlyMemberId` | Ghidra/Features/Recognizers/src/main/java/ghidra/app/util/recognizer/GzipRecognizer.java:20-28 | on any array it returns the GZIP message iff length >= 2, the first octet is 0x1f and the second is 0x8b; in every other case it returns `null` |
| `GzipRecognizer.RecognizesFileIffRfcMemberId` | Ghidra/Features/Recognizers/src/main/java/ghidra/app/util/recognizer/GzipRecognizer.java:20-28 | for any file's octets read into a `byte[]`, the result is the GZIP message exactly when the octets pass the RFC 1952 ID1/ID2 test, and `null` otherwise |
| `GzipRecognizer.ShortArrayNotRecognized` | Ghidra/Features/Recognizers/src/main/java/ghidra/app/util/recognizer/GzipRecognizer.java:21-27 | an array shorter than `numberOfBytesRequired()` gives `null`; a recognized array has at least `numberOfBytesRequired()` bytes |
| `GzipRecognizer.WrongId1NotRecognized` | Ghidra/Features/Recognizers/src/main/java/ghidra/app/util/recognizer/GzipRecognizer.java:22-27 | a first octet other than 0x1f gives `null`, whatever the other bytes are |
| `GzipRecognizer.WrongId2NotRecognized` | Ghidra/Features/Recognizers/src/main/java/ghidra/app/util/recognizer/GzipRecognizer.java:22-27 | a second octet other than 0x8b gives `null`, whatever the other bytes are |
| `GzipRecognizer.OnlyFirstTwoBytesMatter` | Ghidra/Features/Recognizers/src/main/java/ghidra/app/util/recognizer/GzipRecognizer.java:21-23 | two arrays of length >= 2 that agree on bytes 0 and 1 get the same result |
| `GzipRecognizer.AppendingKeepsRecognition` | Ghidra/Features/Recognizers/src/main/java/ghidra/app/util/recognizer/GzipRecognizer.java:21-24 | appending any bytes to a recognized array keeps it recognized |
| `JavaLang.ToByte` | Ghidra/Features/Recognizers/src/main/java/ghidra/app/util/recognizer/GzipRecognizer.java:22-23 | the `(byte)` cast keeps the low 8 bits: the octet of the result is the argument mod 256, and values already in byte range are unchanged |
| `JavaLang.Unsigned` | Ghidra/Features/Recognizers/src/main/java/ghidra/app/util/recognizer/GzipRecognizer.java:22-23 | the unsigned view of a signed byte is its value mod 256, in 0..255 |
| `JavaLang.ToByteOfOctet` | Ghidra/Features/Recognizers/src/main/java/ghidra/app/util/recognizer/GzipRecognizer.java:22-23 | casting a byte's octet back to `byte` gives the byte: the two views lose nothing |
| `JavaLang.SameOctet` | Ghidra/Features/Recognizers/src/main/java/ghidra/app/util/recognizer/GzipRecognizer.java:22-23 | a byte equals `(byte) o` iff its unsigned octet is `o`, so signed -117 and unsigned 139 are the same octet |
| `JavaLang.Length` | Ghidra/Features/Recognizers/src/main/java/ghidra/app/util/recognizer/GzipRecognizer.java:21 | `bytes.length` throws NullPointerException exactly on `null` and otherwise gives the element count |
| `JavaLang.Load` | Ghidra/Features/Recognizers/src/main/java/ghidra/app/util/recognizer/GzipRecognizer.java:22-23 | `bytes[i]` returns element i exactly when the array is non-null and i is in bounds; otherwise it throws NullPointerException or ArrayIndexOutOfBoundsException(i) |
| `JavaLang.ToJavaBytes` | Ghidra/Features/Recognizers/src/main/java/ghidra/app/util/recognizer/GzipRecognizer.java:20 | a file's octets become a `byte[]` of the same length |
| `JavaLang.ToOctets` | Ghidra/Features/Recognizers/src/main/java/ghidra/app/util/recognizer/GzipRecognizer.java:20 | the unsigned octets of a `byte[]` have the same length as the array |
| `JavaLang.ToJavaBytesAt` | Ghidra/Features/Recognizers/src/main/java/ghidra/app/util/recognizer/GzipRecognizer.java:20 | element i of the `byte[]` is the `(byte)` cast of octet i |
| `JavaLang.ToOctetsAt` | Ghidra/Features/Recognizers/src/main/java/ghidra/app/util/recognizer/GzipRecognizer.java:20 | octet i is the unsigned view of element i |
| `JavaLang.OctetsOfJavaBytes` | Ghidra/Features/Recognizers/src/main/java/ghidra/app/util/recognizer/GzipRecognizer.java:20 | reading octets into a `byte[]` and taking their unsigned views gives the octets back |
| `JavaLang.JavaBytesOfOctets` | Ghidra/Features/Recognizers/src/main/java/ghidra/app/util/recognizer/GzipRecognizer.java:20 | every `byte[]` is the Java form of its own octets |

## Left out

- Ghidra/Framework/Project/src/main/java/ghidra/framework/model/Project.java: an interface with no logic apart from a default `iterator()` that forwards to `getProjectData()`. Its operations are documented only, and their substance is repository connection, tool management, persistence and lifecycle I/O. No implementation exists to model, so views, consumers and object caches are not part of this model.
- The `Recognizer` interface, and how Ghidra registers recognizers and orders them by priority, are not part of this model; only this class's own three methods are.
- Reading the file into the `byte[]` is I/O done by the caller. It is modelled only as the octet-to-byte conversion `ToJavaBytes`.
- GZIP decompression and header fields beyond ID1/ID2: the recognizer does neither.
- `GetPriority` and `NumberOfBytesRequired` return unbounded Dafny integers rather than 32-bit Java `int`s; both constants fit in an `int`, so nothing is lost.
