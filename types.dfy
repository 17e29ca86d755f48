/** The records of the application (src/types/index.ts) and the sample data
    the store and the IP block list start from (src/data/mockData.ts). */
module Types {
  import opened Wrappers
  import opened Text

  datatype CriminalStatus = Active | Captured | Deceased

  datatype Criminal = Criminal(
    id: string,
    name: string,
    age: JsNumber,
    charges: seq<string>,
    lastSeen: string,
    status: CriminalStatus,
    image: string,
    description: string,
    identificationNumber: string)

  datatype CaseStatus = Open | Investigating | Closed

  datatype Priority = Low | Medium | High | Critical

  datatype Case = Case(
    id: string,
    title: string,
    description: string,
    reportedBy: string,
    reportedDate: string,
    status: CaseStatus,
    priority: Priority,
    assignedOfficer: Option<string>,
    evidence: seq<string>)

  datatype BlockStatus = BlockActive | BlockExpired

  datatype BlockedIP = BlockedIP(
    id: string,
    ipAddress: string,
    reason: string,
    blockedDate: string,
    blockedBy: string,
    status: BlockStatus)

  /** The string a status has in the source ('open', 'active', ...), which
      the select boxes of the search pages compare against. */
  function CaseStatusName(s: CaseStatus): string {
    match s
    case Open => "open"
    case Investigating => "investigating"
    case Closed => "closed"
  }

  function PriorityName(p: Priority): string {
    match p
    case Low => "low"
    case Medium => "medium"
    case High => "high"
    case Critical => "critical"
  }

  function BlockStatusName(s: BlockStatus): string {
    match s
    case BlockActive => "active"
    case BlockExpired => "expired"
  }

  const MockCriminals: seq<Criminal> := [
    Criminal("1", "John Doe", Num(34), ["Armed Robbery", "Assault"], "2024-01-15", Active,
             "https://images.unsplash.com/photo-1507003211169-0a1dd7228f2d?w=200&h=200&fit=crop&crop=face",
             "Wanted for armed robbery at downtown bank. Considered dangerous.", "CR001"),
    Criminal("2", "Jane Smith", Num(28), ["Fraud", "Identity Theft"], "2024-01-20", Active,
             "https://images.unsplash.com/photo-1494790108755-2616b612b647?w=200&h=200&fit=crop&crop=face",
             "Involved in major credit card fraud scheme.", "CR002"),
    Criminal("3", "Mike Johnson", Num(42), ["Drug Trafficking"], "2024-01-10", Captured,
             "https://images.unsplash.com/photo-1472099645785-5658abf4ff4e?w=200&h=200&fit=crop&crop=face",
             "Leader of drug trafficking ring. Recently apprehended.", "CR003")
  ]

  const MockCases: seq<Case> := [
    Case("CASE001", "Downtown Bank Robbery", "Armed robbery occurred at First National Bank on Main Street",
         "Bank Manager", "2024-01-15", Investigating, High, Some("Officer Smith"),
         ["Security footage", "Witness statements"]),
    Case("CASE002", "Vehicle Theft Ring", "Multiple car thefts reported in residential area",
         "Multiple Citizens", "2024-01-18", Open, Medium, Some("Detective Johnson"),
         ["CCTV footage", "License plate records"]),
    Case("CASE003", "Fraud Investigation", "Large scale credit card fraud detected",
         "Financial Institution", "2024-01-20", Investigating, Critical, Some("Detective Brown"),
         ["Transaction records", "Digital forensics"])
  ]

  const MockBlockedIPs: seq<BlockedIP> := [
    BlockedIP("1", "192.168.1.100", "Suspicious activity detected", "2024-01-20", "Security System", BlockActive),
    BlockedIP("2", "10.0.0.50", "Multiple failed login attempts", "2024-01-19", "Admin", BlockActive),
    BlockedIP("3", "172.16.0.25", "DDoS attack source", "2024-01-18", "Firewall", BlockExpired)
  ]
}
